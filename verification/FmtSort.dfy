/** The ordering of map keys of any type, and the stable sort of a map by it. */
module FmtSort {
  datatype Kind = IntKind | UintKind | StringKind | FloatKind | ComplexKind | BoolKind | PointerKind | ChanKind
                | StructKind | ArrayKind | InterfaceKind

  /** What is behind the address of a type; `fields` are the types of the fields of a struct, or as many times the
      type of its elements as an array has elements. */
  datatype TypeInfo = TypeInfo(kind: Kind, fields: seq<nat>)

  type Types = nat -> TypeInfo

  datatype Float = NaN | NegInf | Number(r: real) | PosInf

  /** A value with the address of its type; `Chan(_, 0)` and `NilInterface` are nil. */
  datatype Value =
    | Int(of: nat, i: int)
    | Uint(of: nat, n: nat)
    | String(of: nat, s: string)
    | Floating(of: nat, f: Float)
    | Complex(of: nat, re: Float, im: Float)
    | Bool(of: nat, b: bool)
    | Pointer(of: nat, address: nat)
    | Chan(of: nat, address: nat)
    | Struct(of: nat, parts: seq<Value>)
    | Array(of: nat, parts: seq<Value>)
    | NilInterface(of: nat)
    | Interface(of: nat, elem: Value)

  function KindOf(v: Value): Kind {
    match v
    case Int(_, _) => IntKind
    case Uint(_, _) => UintKind
    case String(_, _) => StringKind
    case Floating(_, _) => FloatKind
    case Complex(_, _, _) => ComplexKind
    case Bool(_, _) => BoolKind
    case Pointer(_, _) => PointerKind
    case Chan(_, _) => ChanKind
    case Struct(_, _) => StructKind
    case Array(_, _) => ArrayKind
    case NilInterface(_) => InterfaceKind
    case Interface(_, _) => InterfaceKind
  }

  function Parts(v: Value): seq<Value> { if v.Struct? || v.Array? then v.parts else [] }

  predicate WellTyped(types: Types, v: Value) {
    && types(v.of).kind == KindOf(v)
    && (v.Struct? || v.Array? ==>
          && |v.parts| == |types(v.of).fields|
          && forall i :: 0 <= i < |v.parts| ==> v.parts[i].of == types(v.of).fields[i] && WellTyped(types, v.parts[i]))
    && (v.Interface? ==> WellTyped(types, v.elem))
  }

  predicate NoNaN(v: Value) {
    && (v.Floating? ==> v.f != NaN)
    && (v.Complex? ==> v.re != NaN && v.im != NaN)
    && (v.Struct? || v.Array? ==> forall i :: 0 <= i < |v.parts| ==> NoNaN(v.parts[i]))
    && (v.Interface? ==> NoNaN(v.elem))
  }

  // --------------------------------------------------------------- comparison

  function CompareInt(a: int, b: int): int { if a < b then -1 else if a > b then 1 else 0 }

  function CompareReal(a: real, b: real): int { if a < b then -1 else if a > b then 1 else 0 }

  /** Go compares strings byte by byte, a prefix first. */
  function CompareString(a: string, b: string): int {
    if a == [] || b == [] then CompareInt(|a|, |b|)
    else if a[0] < b[0] then -1
    else if a[0] > b[0] then 1
    else CompareString(a[1..], b[1..])
  }

  function CompareFloat(a: Float, b: Float): int {
    match (a, b)
    case (NaN, _) => -1
    case (_, NaN) => 1
    case (Number(x), Number(y)) => CompareReal(x, y)
    case _ => if a == b then 0 else if a == NegInf || b == PosInf then -1 else 1
  }

  function CompareBool(a: bool, b: bool): int { if a == b then 0 else if a then 1 else -1 }

  /** `nilCompare`, for a nil at address 0. */
  function CompareNil(a: nat, b: nat): int {
    if a == 0 then (if b == 0 then 0 else -1) else if b == 0 then 1 else CompareInt(a, b)
  }

  /** `compare`. */
  function Compare(types: Types, a: Value, b: Value): int
    requires WellTyped(types, a) && WellTyped(types, b)
    decreases a, 1, 0
  {
    if a.of != b.of then -1
    else match a
         case Int(_, x) => CompareInt(x, b.i)
         case Uint(_, x) => CompareInt(x, b.n)
         case String(_, x) => CompareString(x, b.s)
         case Floating(_, x) => CompareFloat(x, b.f)
         case Complex(_, x, y) => var c := CompareFloat(x, b.re); if c != 0 then c else CompareFloat(y, b.im)
         case Bool(_, x) => CompareBool(x, b.b)
         case Pointer(_, x) => CompareInt(x, b.address)
         case Chan(_, x) => CompareNil(x, b.address)
         case Struct(_, _) => CompareParts(types, a, b, 0)
         case Array(_, _) => CompareParts(types, a, b, 0)
         case NilInterface(_) => if b.NilInterface? then 0 else -1
         case Interface(_, x) =>
           if b.NilInterface? then 1
           else
             var c := CompareInt(x.of, b.elem.of);
             if c != 0 then c else Compare(types, x, b.elem)
  }

  /** The loop over the fields of a struct or the elements of an array. */
  function CompareParts(types: Types, a: Value, b: Value, i: nat): int
    requires WellTyped(types, a) && WellTyped(types, b) && a.of == b.of && (a.Struct? || a.Array?) && i <= |a.parts|
    decreases a, 0, |a.parts| - i
  {
    if i == |a.parts| then 0
    else
      var c := Compare(types, a.parts[i], Parts(b)[i]);
      if c != 0 then c else CompareParts(types, a, b, i + 1)
  }

  // -------------------------------------------------------------------- order

  lemma {:induction false} StringOrder(a: string, b: string)
    ensures CompareString(a, b) in {-1, 0, 1} && CompareString(a, b) == -CompareString(b, a)
    ensures CompareString(a, b) == 0 <==> a == b
  {
    if a != [] && b != [] {
      StringOrder(a[1..], b[1..]);
      assert a == [a[0]] + a[1..] && b == [b[0]] + b[1..];
    }
  }

  lemma {:induction false} StringTransitive(a: string, b: string, c: string)
    requires CompareString(a, b) <= 0 && CompareString(b, c) <= 0
    ensures CompareString(a, c) <= 0
  {
    if a != [] && b != [] && c != [] && a[0] == b[0] == c[0] {
      StringTransitive(a[1..], b[1..], c[1..]);
    }
  }

  ghost predicate Comparable(types: Types, a: Value, b: Value) {
    WellTyped(types, a) && WellTyped(types, b) && NoNaN(a) && NoNaN(b) && a.of == b.of
  }

  /** MAIN: on values of one type without NaNs the comparison has the opposite sign the other way round, and it is
      zero on equal values only. */
  lemma {:induction false} CompareOrder(types: Types, a: Value, b: Value)
    requires Comparable(types, a, b)
    ensures Compare(types, a, b) in {-1, 0, 1} && Compare(types, a, b) == -Compare(types, b, a)
    ensures Compare(types, a, b) == 0 <==> a == b
    decreases a, 1, 0
  {
    match a
    case String(_, x) => StringOrder(x, b.s);
    case Struct(_, _) => PartsOrder(types, a, b, 0);
    case Array(_, _) => PartsOrder(types, a, b, 0);
    case Interface(_, x) =>
      if b.Interface? && x.of == b.elem.of {
        CompareOrder(types, x, b.elem);
      }
    case _ =>
  }

  lemma {:induction false} PartsOrder(types: Types, a: Value, b: Value, i: nat)
    requires Comparable(types, a, b) && (a.Struct? || a.Array?) && i <= |a.parts|
    ensures |Parts(b)| == |a.parts| && (b.Struct? || b.Array?)
    ensures CompareParts(types, a, b, i) in {-1, 0, 1} && CompareParts(types, a, b, i) == -CompareParts(types, b, a, i)
    ensures CompareParts(types, a, b, i) == 0 <==> a.parts[i..] == Parts(b)[i..]
    decreases a, 0, |a.parts| - i
  {
    if i < |a.parts| {
      CompareOrder(types, a.parts[i], Parts(b)[i]);
      PartsOrder(types, a, b, i + 1);
      assert a.parts[i..] == [a.parts[i]] + a.parts[i + 1..] && Parts(b)[i..] == [Parts(b)[i]] + Parts(b)[i + 1..];
    }
  }

  /** MAIN: and it is transitive. */
  lemma {:induction false} CompareTransitive(types: Types, a: Value, b: Value, c: Value)
    requires Comparable(types, a, b) && Comparable(types, b, c)
    requires Compare(types, a, b) <= 0 && Compare(types, b, c) <= 0
    ensures Compare(types, a, c) <= 0
    decreases a, 1, 0
  {
    match a
    case String(_, x) => StringTransitive(x, b.s, c.s);
    case Struct(_, _) => PartsTransitive(types, a, b, c, 0);
    case Array(_, _) => PartsTransitive(types, a, b, c, 0);
    case Interface(_, x) =>
      if b.Interface? && c.Interface? && x.of == b.elem.of == c.elem.of {
        CompareTransitive(types, x, b.elem, c.elem);
      }
    case _ =>
  }

  lemma {:induction false} PartsTransitive(types: Types, a: Value, b: Value, c: Value, i: nat)
    requires Comparable(types, a, b) && Comparable(types, b, c) && (a.Struct? || a.Array?)
    requires (b.Struct? || b.Array?) && i <= |a.parts| == |b.parts|
    requires CompareParts(types, a, b, i) <= 0 && CompareParts(types, b, c, i) <= 0
    ensures CompareParts(types, a, c, i) <= 0
    decreases a, 0, |a.parts| - i
  {
    if i < |a.parts| {
      var x, y, z := a.parts[i], b.parts[i], Parts(c)[i];
      CompareOrder(types, x, y);
      CompareOrder(types, y, z);
      CompareOrder(types, x, z);
      CompareTransitive(types, x, y, z);
      if x == y == z {
        PartsTransitive(types, a, b, c, i + 1);
      }
    }
  }

  /** MAIN: a value compares as equal to itself exactly when there is no NaN in it. */
  lemma {:induction false} CompareReflexive(types: Types, a: Value)
    requires WellTyped(types, a)
    ensures Compare(types, a, a) == 0 <==> NoNaN(a)
    decreases a, 1, 0
  {
    match a
    case String(_, x) => StringOrder(x, x);
    case Struct(_, _) => PartsReflexive(types, a, 0);
    case Array(_, _) => PartsReflexive(types, a, 0);
    case Interface(_, x) => CompareReflexive(types, x);
    case _ =>
  }

  lemma {:induction false} PartsReflexive(types: Types, a: Value, i: nat)
    requires WellTyped(types, a) && (a.Struct? || a.Array?) && i <= |a.parts|
    ensures CompareParts(types, a, a, i) == 0 <==> forall j :: i <= j < |a.parts| ==> NoNaN(a.parts[j])
    decreases a, 0, |a.parts| - i
  {
    if i < |a.parts| {
      CompareReflexive(types, a.parts[i]);
      PartsReflexive(types, a, i + 1);
    }
  }

  // --------------------------------------------------------------------- sort

  predicate Less(types: Types, a: Value, b: Value) {
    WellTyped(types, a) && WellTyped(types, b) && Compare(types, a, b) < 0
  }

  datatype Pair<V> = Pair(key: Value, value: V)

  /** Inserts a pair from the end, before all greater ones there. */
  ghost function Insert<V>(types: Types, ps: seq<Pair<V>>, x: Pair<V>): (r: seq<Pair<V>>)
    ensures |r| == |ps| + 1
  {
    if ps == [] || !Less(types, x.key, ps[|ps| - 1].key) then ps + [x]
    else Insert(types, ps[..|ps| - 1], x) + [ps[|ps| - 1]]
  }

  /** What a stable sort makes of some pairs. */
  ghost function Sorted<V>(types: Types, ps: seq<Pair<V>>): (r: seq<Pair<V>>)
    ensures |r| == |ps|
  {
    if ps == [] then [] else Insert(types, Sorted(types, ps[..|ps| - 1]), ps[|ps| - 1])
  }

  lemma {:induction false} InsertIs<V>(types: Types, ps: seq<Pair<V>>, x: Pair<V>, j: nat)
    requires j <= |ps| && forall k :: j <= k < |ps| ==> Less(types, x.key, ps[k].key)
    requires j > 0 ==> !Less(types, x.key, ps[j - 1].key)
    ensures Insert(types, ps, x) == ps[..j] + [x] + ps[j..]
  {
    if j < |ps| {
      var front, last := ps[..|ps| - 1], ps[|ps| - 1];
      InsertIs(types, front, x, j);
      assert front[..j] == ps[..j] && ps[j..] == front[j..] + [last];
    } else {
      assert ps[..j] == ps && ps[j..] == [];
    }
  }

  /** Some pairs, the first of which have been sorted. */
  ghost function Partly<V>(types: Types, ps: seq<Pair<V>>, i: nat): seq<Pair<V>>
    requires i <= |ps|
  {
    Sorted(types, ps[..i]) + ps[i..]
  }

  lemma PartlyIs<V>(types: Types, ps: seq<Pair<V>>, i: nat)
    requires i < |ps|
    ensures Partly(types, ps, i) == Sorted(types, ps[..i]) + [ps[i]] + ps[i + 1..]
    ensures Partly(types, ps, i + 1) == Insert(types, Sorted(types, ps[..i]), ps[i]) + ps[i + 1..]
  {
    assert ps[..i + 1][..i] == ps[..i];
    assert ps[i..] == [ps[i]] + ps[i + 1..];
  }

  /** The keys and the values of a map, aligned in index order. */
  class SortedMap<V> {
    var keys: array<Value>
    var values: array<V>

    constructor (entries: seq<Pair<V>>)
      ensures Valid() && fresh(keys) && fresh(values) && Pairs() == entries
    {
      keys := new Value[|entries|](i requires 0 <= i < |entries| => entries[i].key);
      values := new V[|entries|](i requires 0 <= i < |entries| => entries[i].value);
    }

    ghost predicate Valid()
      reads this
    {
      keys.Length == values.Length && keys as object != values as object
    }

    ghost function Pairs(): (ps: seq<Pair<V>>)
      requires Valid()
      reads this, keys, values
      ensures |ps| == keys.Length && forall i :: 0 <= i < keys.Length ==> ps[i] == Pair(keys[i], values[i])
    {
      seq(keys.Length, i requires 0 <= i < keys.Length reads this, keys, values requires Valid() =>
        Pair(keys[i], values[i]))
    }

    /** A key keeps its value. */
    method Swap(i: nat, j: nat)
      requires Valid() && i < keys.Length && j < keys.Length
      modifies keys, values
      ensures Valid() && Pairs() == old(Pairs())[i := old(Pairs())[j]][j := old(Pairs())[i]]
    {
      keys[i], keys[j] := keys[j], keys[i];
      values[i], values[j] := values[j], values[i];
    }

    /** The insertion sort that `sort.Stable` is made of, on the whole map. */
    method Sort(types: Types)
      requires Valid()
      modifies keys, values
      ensures Valid() && Pairs() == Sorted(types, old(Pairs()))
    {
      ghost var was := Pairs();
      assert was[..0] == [];
      assert was[0..] == was;
      for i := 0 to keys.Length
        invariant Valid() && |was| == keys.Length && Pairs() == Partly(types, was, i)
      {
        Round(types, i, was);
      }
      assert was[..|was|] == was;
      assert was[|was|..] == [];
    }

    method Round(types: Types, i: nat, ghost was: seq<Pair<V>>)
      requires Valid() && i < |was| == keys.Length && Pairs() == Partly(types, was, i)
      modifies keys, values
      ensures Valid() && Pairs() == Partly(types, was, i + 1)
    {
      PartlyIs(types, was, i);
      SortOne(types, i, Sorted(types, was[..i]), was[i], was[i + 1..]);
    }

    /** One round: a pair moves down past all greater ones. */
    method SortOne(types: Types, i: nat, ghost done: seq<Pair<V>>, ghost x: Pair<V>, ghost rest: seq<Pair<V>>)
      requires Valid() && i < keys.Length && |done| == i && Pairs() == done + [x] + rest
      modifies keys, values
      ensures Valid() && Pairs() == Insert(types, done, x) + rest
    {
      var j: nat := i;
      while j > 0
        invariant Valid() && j <= i < keys.Length
        invariant Pairs() == Moved(done, x, rest, j)
        invariant forall k :: j <= k < i ==> Less(types, x.key, done[k].key)
      {
        MovedAt(done, x, rest, j);
        assert Pairs()[j].key == keys[j] && Pairs()[j - 1].key == keys[j - 1];
        if !Less(types, keys[j], keys[j - 1]) { break; }
        Swap(j, j - 1);
        j := j - 1;
      }
      InsertIs(types, done, x, j);
    }
  }

  /** A pair that has come down to a place among those before it. */
  ghost function Moved<V>(done: seq<Pair<V>>, x: Pair<V>, rest: seq<Pair<V>>, j: nat): seq<Pair<V>>
    requires j <= |done|
  {
    done[..j] + [x] + done[j..] + rest
  }

  lemma MovedAt<V>(done: seq<Pair<V>>, x: Pair<V>, rest: seq<Pair<V>>, j: nat)
    requires 0 < j <= |done|
    ensures var m := Moved(done, x, rest, j);
            m[j] == x && m[j - 1] == done[j - 1] && m[j := done[j - 1]][j - 1 := x] == Moved(done, x, rest, j - 1)
  {
  }

  // ------------------------------------------------------- what a sort promises

  ghost predicate Increasing<V>(types: Types, ps: seq<Pair<V>>) {
    forall i, j :: 0 <= i < j < |ps| ==> !Less(types, ps[j].key, ps[i].key)
  }

  /** Keys of one type without NaNs. */
  ghost predicate Orderable<V(!new)>(types: Types, ps: seq<Pair<V>>) {
    forall p, q :: p in ps && q in ps ==> Comparable(types, p.key, q.key)
  }

  /** The pairs with one key in their order. */
  ghost function WithKey<V>(ps: seq<Pair<V>>, k: Value): seq<Pair<V>> {
    if ps == [] then [] else WithKey(ps[..|ps| - 1], k) + if ps[|ps| - 1].key == k then [ps[|ps| - 1]] else []
  }

  lemma MultisetSnoc<T>(s: seq<T>)
    requires s != []
    ensures multiset(s) == multiset(s[..|s| - 1]) + multiset{s[|s| - 1]}
  {
    assert s == s[..|s| - 1] + [s[|s| - 1]];
  }

  /** Nothing is lost and nothing is added, whatever the keys are. */
  lemma {:induction false} InsertKeeps<V>(types: Types, ps: seq<Pair<V>>, x: Pair<V>)
    ensures multiset(Insert(types, ps, x)) == multiset(ps) + multiset{x}
  {
    if ps != [] && Less(types, x.key, ps[|ps| - 1].key) {
      InsertKeeps(types, ps[..|ps| - 1], x);
      MultisetSnoc(ps);
    }
  }

  lemma {:induction false} SortedKeeps<V>(types: Types, ps: seq<Pair<V>>)
    ensures multiset(Sorted(types, ps)) == multiset(ps)
  {
    if ps != [] {
      SortedKeeps(types, ps[..|ps| - 1]);
      InsertKeeps(types, Sorted(types, ps[..|ps| - 1]), ps[|ps| - 1]);
      MultisetSnoc(ps);
    }
  }

  lemma LessIsOneWay(types: Types, a: Value, b: Value)
    requires Comparable(types, a, b) && Less(types, a, b)
    ensures !Less(types, b, a) && a != b
  {
    CompareOrder(types, a, b);
  }

  lemma NotLessIsTransitive(types: Types, a: Value, b: Value, c: Value)
    requires Comparable(types, a, b) && Comparable(types, b, c) && !Less(types, b, a) && !Less(types, c, b)
    ensures !Less(types, c, a)
  {
    CompareOrder(types, a, b);
    CompareOrder(types, b, c);
    CompareTransitive(types, a, b, c);
    CompareOrder(types, a, c);
  }

  lemma {:induction false} InsertIn<V>(types: Types, ps: seq<Pair<V>>, x: Pair<V>, p: Pair<V>)
    ensures p in Insert(types, ps, x) <==> p in ps || p == x
  {
    if ps != [] && Less(types, x.key, ps[|ps| - 1].key) {
      InsertIn(types, ps[..|ps| - 1], x, p);
      assert ps == ps[..|ps| - 1] + [ps[|ps| - 1]];
    }
  }

  lemma IncreasingAppend<V>(types: Types, ps: seq<Pair<V>>, x: Pair<V>)
    requires Increasing(types, ps) && forall p :: p in ps ==> !Less(types, x.key, p.key)
    ensures Increasing(types, ps + [x])
  {
  }

  lemma LastIsGreatest<V(!new)>(types: Types, ps: seq<Pair<V>>, p: Pair<V>)
    requires Orderable(types, ps) && Increasing(types, ps) && p in ps
    ensures !Less(types, ps[|ps| - 1].key, p.key)
  {
    var i :| 0 <= i < |ps| && ps[i] == p;
    if i == |ps| - 1 {
      CompareOrder(types, p.key, p.key);
    }
  }

  lemma InsertLast<V(!new)>(types: Types, ps: seq<Pair<V>>, x: Pair<V>)
    requires Orderable(types, ps + [x]) && Increasing(types, ps) && ps != [] && !Less(types, x.key, ps[|ps| - 1].key)
    ensures Increasing(types, ps + [x])
  {
    var last := ps[|ps| - 1];
    assert forall p :: p in ps ==> p in ps + [x];
    assert x in ps + [x] && last in ps;
    forall p | p in ps ensures !Less(types, x.key, p.key) {
      LastIsGreatest(types, ps, p);
      NotLessIsTransitive(types, p.key, last.key, x.key);
    }
    IncreasingAppend(types, ps, x);
  }

  lemma InsertEarlier<V(!new)>(types: Types, ps: seq<Pair<V>>, x: Pair<V>)
    requires Orderable(types, ps + [x]) && Increasing(types, ps) && ps != [] && Less(types, x.key, ps[|ps| - 1].key)
    requires Increasing(types, Insert(types, ps[..|ps| - 1], x))
    ensures Increasing(types, Insert(types, ps, x))
  {
    var front, last := ps[..|ps| - 1], ps[|ps| - 1];
    assert forall p :: p in ps ==> p in ps + [x];
    assert x in ps + [x] && last in ps && forall p :: p in front ==> p in ps;
    forall p | p in Insert(types, front, x) ensures !Less(types, last.key, p.key) {
      InsertIn(types, front, x, p);
      if p == x {
        LessIsOneWay(types, x.key, last.key);
      } else {
        LastIsGreatest(types, ps, p);
      }
    }
    IncreasingAppend(types, Insert(types, front, x), last);
  }

  lemma {:induction false} InsertIncreases<V(!new)>(types: Types, ps: seq<Pair<V>>, x: Pair<V>)
    requires Orderable(types, ps + [x]) && Increasing(types, ps)
    ensures Increasing(types, Insert(types, ps, x))
  {
    if ps != [] {
      if Less(types, x.key, ps[|ps| - 1].key) {
        assert forall p :: p in ps[..|ps| - 1] + [x] ==> p in ps + [x];
        InsertIncreases(types, ps[..|ps| - 1], x);
        InsertEarlier(types, ps, x);
      } else {
        InsertLast(types, ps, x);
      }
    }
  }

  lemma WithKeyAppend<V>(ps: seq<Pair<V>>, x: Pair<V>, k: Value)
    ensures WithKey(ps + [x], k) == WithKey(ps, k) + if x.key == k then [x] else []
  {
    assert (ps + [x])[..|ps|] == ps;
  }

  lemma {:induction false} InsertIsStable<V(!new)>(types: Types, ps: seq<Pair<V>>, x: Pair<V>, k: Value)
    requires Orderable(types, ps + [x])
    ensures WithKey(Insert(types, ps, x), k) == WithKey(ps, k) + if x.key == k then [x] else []
  {
    assert forall p :: p in ps ==> p in ps + [x];
    assert x in ps + [x];
    if ps == [] || !Less(types, x.key, ps[|ps| - 1].key) {
      WithKeyAppend(ps, x, k);
    } else {
      var front, last := ps[..|ps| - 1], ps[|ps| - 1];
      assert forall p :: p in front + [x] ==> p in ps + [x];
      InsertIsStable(types, front, x, k);
      InsertBefore(types, ps, x, k);
      LessIsOneWay(types, x.key, last.key);
    }
  }

  lemma InsertBefore<V>(types: Types, ps: seq<Pair<V>>, x: Pair<V>, k: Value)
    requires ps != [] && Less(types, x.key, ps[|ps| - 1].key)
    ensures var last := if ps[|ps| - 1].key == k then [ps[|ps| - 1]] else [];
            && WithKey(Insert(types, ps, x), k) == WithKey(Insert(types, ps[..|ps| - 1], x), k) + last
            && WithKey(ps, k) == WithKey(ps[..|ps| - 1], k) + last
  {
    WithKeyAppend(Insert(types, ps[..|ps| - 1], x), ps[|ps| - 1], k);
  }

  /** MAIN: of keys of one type without NaNs, a sorted map has them in order, with their values, and pairs with the
      same key in the order they had; and of any keys, it has the same pairs. */
  lemma {:induction false} SortedIsStable<V(!new)>(types: Types, ps: seq<Pair<V>>, k: Value)
    ensures multiset(Sorted(types, ps)) == multiset(ps)
    ensures Orderable(types, ps) ==>
              Increasing(types, Sorted(types, ps)) && WithKey(Sorted(types, ps), k) == WithKey(ps, k)
  {
    SortedKeeps(types, ps);
    if ps != [] && Orderable(types, ps) {
      var front, last := ps[..|ps| - 1], ps[|ps| - 1];
      assert forall p :: p in front ==> p in ps;
      SortedIsStable(types, front, k);
      var s := Sorted(types, front);
      assert forall p :: p in s <==> p in multiset(s);
      assert forall p :: p in front <==> p in multiset(front);
      assert forall p :: p in s + [last] ==> p in ps;
      InsertIncreases(types, s, last);
      InsertIsStable(types, s, last, k);
    }
  }
}
