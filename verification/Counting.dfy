/** Sequences that are updated in one place: how many elements have a property, and what a second update leaves. */
module Counting {
  ghost function CountIf<T>(s: seq<T>, p: T -> bool): nat {
    if s == [] then 0 else (if p(s[0]) then 1 else 0) + CountIf(s[1..], p)
  }

  lemma {:induction false} CountIfUpdate<T>(s: seq<T>, at: nat, x: T, p: T -> bool)
    requires at < |s|
    ensures CountIf(s[at := x], p) == CountIf(s, p) - (if p(s[at]) then 1 else 0) + (if p(x) then 1 else 0)
  {
    if at == 0 {
      assert s[0 := x][1..] == s[1..];
    } else {
      CountIfUpdate(s[1..], at - 1, x, p);
      assert s[at := x][1..] == s[1..][at - 1 := x];
    }
  }

  lemma {:induction false} CountIfAppend<T>(s: seq<T>, x: T, p: T -> bool)
    ensures CountIf(s + [x], p) == CountIf(s, p) + if p(x) then 1 else 0
  {
    if s == [] {
      assert s + [x] == [x];
    } else {
      CountIfAppend(s[1..], x, p);
      assert (s + [x])[1..] == s[1..] + [x];
    }
  }

  lemma {:induction false} CountIfPositive<T>(s: seq<T>, p: T -> bool)
    ensures CountIf(s, p) > 0 <==> exists i :: 0 <= i < |s| && p(s[i])
  {
    if s != [] {
      CountIfPositive(s[1..], p);
      if i :| 0 <= i < |s| && p(s[i]) {
        if i > 0 {
          assert p(s[1..][i - 1]);
        }
      }
      if CountIf(s[1..], p) > 0 {
        var i :| 0 <= i < |s[1..]| && p(s[1..][i]);
        assert p(s[i + 1]);
      }
    }
  }

  lemma {:induction false} CountIfConcat<T>(a: seq<T>, b: seq<T>, p: T -> bool)
    ensures CountIf(a + b, p) == CountIf(a, p) + CountIf(b, p)
  {
    if a == [] {
      assert a + b == b;
    } else {
      CountIfConcat(a[1..], b, p);
      assert (a + b)[1..] == a[1..] + b;
    }
  }

  lemma {:induction false} CountIfAll<T>(s: seq<T>, p: T -> bool)
    requires forall i :: 0 <= i < |s| ==> p(s[i])
    ensures CountIf(s, p) == |s|
  {
    if s != [] {
      CountIfAll(s[1..], p);
    }
  }

  /** A weaker property counts at least as much. */
  lemma {:induction false} CountIfWeaker<T>(s: seq<T>, p: T -> bool, q: T -> bool)
    requires forall i :: 0 <= i < |s| && p(s[i]) ==> q(s[i])
    ensures CountIf(s, p) <= CountIf(s, q)
  {
    if s != [] {
      assert forall i :: 0 <= i < |s| - 1 ==> s[1..][i] == s[i + 1];
      CountIfWeaker(s[1..], p, q);
    }
  }

  lemma UpdateTwice<T>(s: seq<T>, at: nat, x: T, y: T)
    requires at < |s|
    ensures s[at := x][at := y] == s[at := y]
  {
  }

  function One(b: bool): int { if b then 1 else 0 }

  /** For handles that are known by whether they are closed. */
  ghost function IsOpen(): bool -> bool { (closed: bool) => !closed }
}
