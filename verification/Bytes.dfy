/** Byte strings as the source's `[]byte`: splitting, joining and decimal numbers. */
module Bytes {
  /** A byte, written as the character with that code. */
  type byte = c: char | c < '\U{0100}' witness 'a'

  type Bytes = seq<byte>

  type uint32 = n: int | 0 <= n < 0x1_0000_0000

  datatype Option<+T> = None | Some(value: T)

  function Find<K, V>(m: map<K, V>, k: K): Option<V> { if k in m then Some(m[k]) else None }

  // ---------------------------------------------------------------- positions

  /** Position of the first `sep`. */
  function IndexOf(s: Bytes, sep: byte): (i: nat)
    requires sep in s
    ensures i < |s| && s[i] == sep && sep !in s[..i]
  {
    if s[0] == sep then 0 else
      assert s == [s[0]] + s[1..];
      var j := IndexOf(s[1..], sep);
      assert s[..j + 1] == [s[0]] + s[1..][..j];
      j + 1
  }

  lemma IndexOfFirst(s: Bytes, t: Bytes, sep: byte)
    requires sep !in s
    ensures IndexOf(s + [sep] + t, sep) == |s|
    ensures (s + [sep] + t)[..|s|] == s && (s + [sep] + t)[|s| + 1..] == t
  {
    var u := s + [sep] + t;
    assert u[|s|] == sep;
    assert forall k :: 0 <= k < |s| ==> u[k] == s[k] && s[k] != sep;
    var i := IndexOf(u, sep);
    assert forall k :: 0 <= k < i ==> u[..i][k] == u[k];
  }

  // ------------------------------------------------------- splitting, joining

  /** `bytes.SplitN` for a positive `n`: at most `n` pieces, the last one holding the rest. */
  function SplitN(s: Bytes, sep: byte, n: nat): (parts: seq<Bytes>)
    requires n > 0
    ensures 0 < |parts| <= n
  {
    if s == [] then [[]]
    else if s[0] == sep && n > 1 then [[]] + SplitN(s[1..], sep, n - 1)
    else
      var rest := SplitN(s[1..], sep, n);
      [[s[0]] + rest[0]] + rest[1..]
  }

  /** `bytes.Split`: as many pieces as there are separators, and one more. */
  function Split(s: Bytes, sep: byte): seq<Bytes> {
    SplitN(s, sep, |s| + 1)
  }

  /** `bytes.Join`. */
  function Join(parts: seq<Bytes>, sep: byte): Bytes {
    if |parts| == 0 then []
    else if |parts| == 1 then parts[0]
    else parts[0] + [sep] + Join(parts[1..], sep)
  }

  ghost predicate Free(parts: seq<Bytes>, sep: byte) {
    forall i :: 0 <= i < |parts| ==> sep !in parts[i]
  }

  /** Putting a byte in front of the first piece puts it in front of the join. */
  lemma JoinPrepend(c: byte, parts: seq<Bytes>, sep: byte)
    requires 0 < |parts|
    ensures Join([[c] + parts[0]] + parts[1..], sep) == [c] + Join(parts, sep)
  {
    var longer := [[c] + parts[0]] + parts[1..];
    assert longer[1..] == parts[1..];
  }

  lemma {:induction false} JoinOfSplit(s: Bytes, sep: byte, n: nat)
    requires n > 0
    ensures Join(SplitN(s, sep, n), sep) == s
  {
    if s != [] {
      if s[0] == sep && n > 1 {
        JoinOfSplit(s[1..], sep, n - 1);
        assert SplitN(s, sep, n)[1..] == SplitN(s[1..], sep, n - 1);
      } else {
        JoinOfSplit(s[1..], sep, n);
        JoinPrepend(s[0], SplitN(s[1..], sep, n), sep);
      }
    }
  }

  /** How often a value occurs. */
  function Count<T(==)>(s: seq<T>, x: T): nat {
    if s == [] then 0 else (if s[0] == x then 1 else 0) + Count(s[1..], x)
  }

  lemma {:induction false} CountConcat<T>(a: seq<T>, b: seq<T>, x: T)
    ensures Count(a + b, x) == Count(a, x) + Count(b, x)
  {
    if a == [] {
      assert a + b == b;
    } else {
      CountConcat(a[1..], b, x);
      assert (a + b)[1..] == a[1..] + b;
    }
  }

  lemma {:induction false} CountPositive<T>(s: seq<T>, x: T)
    ensures Count(s, x) > 0 <==> x in s
  {
    if s != [] {
      CountPositive(s[1..], x);
    }
  }

  /** Adding one separator in the middle adds one to the count. */
  lemma CountAround(a: Bytes, sep: byte, b: Bytes)
    ensures Count(a + [sep] + b, sep) == Count(a, sep) + 1 + Count(b, sep)
  {
    CountConcat(a + [sep], b, sep);
    CountConcat(a, [sep], sep);
  }

  lemma {:induction false} SplitCount(s: Bytes, sep: byte, n: nat)
    requires n > 0
    ensures |SplitN(s, sep, n)| == if Count(s, sep) < n then Count(s, sep) + 1 else n
  {
    if s != [] {
      SplitCount(s[1..], sep, if s[0] == sep && n > 1 then n - 1 else n);
    }
  }

  lemma {:induction false} JoinCount(parts: seq<Bytes>, sep: byte)
    requires 0 < |parts|
    ensures Count(Join(parts, sep), sep) >= |parts| - 1
    ensures Count(Join(parts, sep), sep) == |parts| - 1 <==> Free(parts, sep)
  {
    CountPositive(parts[0], sep);
    if |parts| > 1 {
      var rest := parts[1..];
      JoinCount(rest, sep);
      CountAround(parts[0], sep, Join(rest, sep));
      assert forall i :: 0 <= i < |rest| ==> rest[i] == parts[i + 1];
      assert forall i :: 0 < i < |parts| ==> parts[i] == rest[i - 1];
    }
  }

  lemma {:induction false} SplitHead(s: Bytes, t: Bytes, sep: byte, n: nat)
    requires sep !in s && n > 1
    ensures SplitN(s + [sep] + t, sep, n) == [s] + SplitN(t, sep, n - 1)
  {
    var u := s + [sep] + t;
    if s == [] {
      assert u[1..] == t;
    } else {
      SplitHead(s[1..], t, sep, n);
      assert u[1..] == s[1..] + [sep] + t;
      assert [s[0]] + s[1..] == s;
    }
  }

  lemma {:induction false} SplitWhole(s: Bytes, sep: byte, n: nat)
    requires sep !in s && n > 0
    ensures SplitN(s, sep, n) == [s]
  {
    if s != [] {
      SplitWhole(s[1..], sep, n);
      assert [s[0]] + s[1..] == s;
    }
  }

  lemma {:induction false} SplitOfFreeJoin(parts: seq<Bytes>, sep: byte, n: nat)
    requires 0 < |parts| < n && Free(parts, sep)
    ensures SplitN(Join(parts, sep), sep, n) == parts
    decreases |parts|
  {
    if |parts| > 1 {
      var rest := parts[1..];
      assert Free(rest, sep);
      SplitOfFreeJoin(rest, sep, n - 1);
      SplitHead(parts[0], Join(rest, sep), sep, n);
      assert parts == [parts[0]] + rest;
    } else {
      SplitWhole(parts[0], sep, n);
    }
  }

  /** Joining pieces and splitting again gives the pieces back exactly when none holds a separator;
      otherwise there are too many pieces. */
  lemma SplitOfJoin(parts: seq<Bytes>, sep: byte, n: nat)
    requires 0 < |parts| < n
    ensures Free(parts, sep) ==> SplitN(Join(parts, sep), sep, n) == parts
    ensures !Free(parts, sep) ==> |SplitN(Join(parts, sep), sep, n)| > |parts|
  {
    if Free(parts, sep) {
      SplitOfFreeJoin(parts, sep, n);
    } else {
      JoinCount(parts, sep);
      SplitCount(Join(parts, sep), sep, n);
    }
  }

  /** Pieces below the limit are free of the separator. */
  lemma SplitFree(s: Bytes, sep: byte, n: nat)
    requires |SplitN(s, sep, n + 1)| <= n
    ensures Free(SplitN(s, sep, n + 1), sep)
  {
    var parts := SplitN(s, sep, n + 1);
    SplitCount(s, sep, n + 1);
    JoinOfSplit(s, sep, n + 1);
    JoinCount(parts, sep);
  }

  /** A join ends with its last piece, a separator before it. */
  lemma {:induction false} JoinLast(parts: seq<Bytes>, sep: byte)
    requires |parts| > 1
    ensures var j, last := Join(parts, sep), parts[|parts| - 1];
            |j| > |last| && j[|j| - |last|..] == last && j[|j| - |last| - 1] == sep
  {
    if |parts| > 2 {
      JoinLast(parts[1..], sep);
    }
  }

  // ------------------------------------------------------------------ decimal

  predicate IsDigit(c: byte) { '0' <= c <= '9' }

  predicate AllDigits(s: Bytes) { forall i :: 0 <= i < |s| ==> IsDigit(s[i]) }

  function DigitOf(c: byte): (d: nat)
    requires IsDigit(c)
    ensures d < 10
  {
    c as int - '0' as int
  }

  function DigitChar(d: nat): (c: byte)
    requires d < 10
    ensures IsDigit(c) && DigitOf(c) == d
  {
    ('0' as int + d) as char
  }

  function DecimalValue(s: Bytes): nat
    requires AllDigits(s)
  {
    if s == [] then 0 else 10 * DecimalValue(s[..|s| - 1]) + DigitOf(s[|s| - 1])
  }

  /** `strconv.FormatUint` in base 10. */
  function FormatUint(n: nat): (s: Bytes)
    ensures s != [] && AllDigits(s) && DecimalValue(s) == n
  {
    if n < 10 then [DigitChar(n)]
    else
      var s := FormatUint(n / 10) + [DigitChar(n % 10)];
      assert s[..|s| - 1] == FormatUint(n / 10);
      s
  }

  lemma {:induction false} FormatLength(n: nat, k: nat)
    requires k > 0 && n < Power10(k)
    ensures |FormatUint(n)| <= k
  {
    if n >= 10 {
      FormatLength(n / 10, k - 1);
    }
  }

  function Power10(k: nat): nat { if k == 0 then 1 else 10 * Power10(k - 1) }

  /** A 32 bit number has at most ten digits. */
  lemma UintLength(n: uint32)
    ensures |FormatUint(n)| <= 10
  {
    assert Power10(10) == 10_000_000_000 by {
      assert Power10(5) == 100_000;
      assert Power10(8) == 100_000_000;
    }
    FormatLength(n, 10);
  }

  /** `strconv.ParseUint` in base 10 with 32 bits: nothing for an empty text, another character or a value
      that does not fit. */
  function ParseUint32(s: Bytes): (r: Option<uint32>)
    ensures forall n: uint32 :: r == Some(n) <==> s != [] && AllDigits(s) && DecimalValue(s) == n
  {
    if s != [] && AllDigits(s) && DecimalValue(s) < 0x1_0000_0000 then Some(DecimalValue(s)) else None
  }
}
