/** JSON documents as Python holds them after `json.loads`: dicts keep insertion order, ints and floats differ. */
module Json {
  import opened Wrappers

  datatype Json =
    | Null
    | Bool(b: bool)
    | Int(i: int)
    | Float(f: real)
    | Str(s: string)
    | Arr(items: seq<Json>)
    | Obj(members: seq<Member>)

  datatype Member = Member(key: string, value: Json)

  /** The position of `key`, `|ms|` when there is none. */
  function IndexOf(ms: seq<Member>, key: string): (i: nat)
    ensures i <= |ms|
    ensures i < |ms| ==> ms[i].key == key
    ensures forall j :: 0 <= j < i ==> ms[j].key != key
  {
    if ms == [] || ms[0].key == key then 0 else 1 + IndexOf(ms[1..], key)
  }

  predicate Has(ms: seq<Member>, key: string) {
    IndexOf(ms, key) < |ms|
  }

  function Get(ms: seq<Member>, key: string): (r: Json)
    requires Has(ms, key)
  {
    ms[IndexOf(ms, key)].value
  }

  /** `dict.get(key)`, with an absent key and an explicit null read alike. */
  function Given(ms: seq<Member>, key: string): (r: Option<Json>) {
    if Has(ms, key) && !Get(ms, key).Null? then Some(Get(ms, key)) else None
  }

  predicate UniqueKeys(ms: seq<Member>) {
    forall i, j :: 0 <= i < j < |ms| ==> ms[i].key != ms[j].key
  }

  /** No dict in the document repeats a key. */
  predicate WellFormed(j: Json) {
    match j
    case Arr(items) => forall i :: 0 <= i < |items| ==> WellFormed(items[i])
    case Obj(ms) => UniqueKeys(ms) && forall i :: 0 <= i < |ms| ==> WellFormed(ms[i].value)
    case _ => true
  }

  lemma HasIffMember(ms: seq<Member>, key: string)
    ensures Has(ms, key) <==> exists i :: 0 <= i < |ms| && ms[i].key == key
  {
  }

  lemma GetAt(ms: seq<Member>, i: nat)
    requires UniqueKeys(ms) && i < |ms|
    ensures IndexOf(ms, ms[i].key) == i && Has(ms, ms[i].key) && Get(ms, ms[i].key) == ms[i].value
  {
    var k := IndexOf(ms, ms[i].key);
    assert k <= i;
  }

  /** One step into a document: a dict key or a list index. */
  datatype Step = Key(name: string) | Index(i: nat)

  function ValueAt(j: Json, at: seq<Step>): (r: Option<Json>)
    decreases |at|
  {
    if at == [] then Some(j)
    else match at[0]
      case Key(name) => if j.Obj? && Has(j.members, name) then ValueAt(Get(j.members, name), at[1..]) else None
      case Index(i) => if j.Arr? && i < |j.items| then ValueAt(j.items[i], at[1..]) else None
  }

  /** The document with the part at `at` replaced. */
  function Put(j: Json, at: seq<Step>, w: Json): (r: Json)
    requires ValueAt(j, at).Some?
    decreases |at|
  {
    if at == [] then w
    else match at[0]
      case Key(name) =>
        Obj(j.members[IndexOf(j.members, name) := Member(name, Put(Get(j.members, name), at[1..], w))])
      case Index(i) => Arr(j.items[i := Put(j.items[i], at[1..], w)])
  }

  lemma {:induction false} IndexOfUpdate(ms: seq<Member>, i: nat, value: Json, key: string)
    requires i < |ms|
    ensures IndexOf(ms[i := Member(ms[i].key, value)], key) == IndexOf(ms, key)
  {
    var ns := ms[i := Member(ms[i].key, value)];
    if i == 0 {
      assert ns[1..] == ms[1..];
    } else {
      IndexOfUpdate(ms[1..], i - 1, value, key);
      assert ns[1..] == ms[1..][i - 1 := Member(ms[i].key, value)];
    }
  }

  /** Below `at` one reads the replacement. */
  lemma {:induction false} PutReads(j: Json, at: seq<Step>, w: Json, below: seq<Step>)
    requires ValueAt(j, at).Some?
    ensures ValueAt(Put(j, at, w), at + below) == ValueAt(w, below)
    decreases |at|
  {
    if at == [] {
      assert at + below == below;
    } else {
      assert (at + below)[1..] == at[1..] + below;
      match at[0]
      case Key(name) =>
        GetUpdate(j.members, name, Put(Get(j.members, name), at[1..], w), name);
        PutReads(Get(j.members, name), at[1..], w, below);
      case Index(i) => PutReads(j.items[i], at[1..], w, below);
    }
  }

  /** Replacing one member changes the lookup of that key only. */
  lemma GetUpdate(ms: seq<Member>, name: string, value: Json, key: string)
    requires Has(ms, name)
    ensures var ns := ms[IndexOf(ms, name) := Member(name, value)];
      (Has(ns, key) <==> Has(ms, key)) && (Has(ms, key) ==> Get(ns, key) == if key == name then value else Get(ms, key))
  {
    IndexOfUpdate(ms, IndexOf(ms, name), value, key);
  }

  /** Everywhere else the document reads as before. */
  lemma {:induction false} PutElsewhere(j: Json, at: seq<Step>, w: Json, other: seq<Step>)
    requires ValueAt(j, at).Some? && !(at <= other) && !(other <= at)
    ensures ValueAt(Put(j, at, w), other) == ValueAt(j, other)
    decreases |at|
  {
    match at[0] {
      case Key(name) =>
        if other[0].Key? {
          GetUpdate(j.members, name, Put(Get(j.members, name), at[1..], w), other[0].name);
        }
        if other[0] == at[0] {
          PrefixTail(at, other);
          PutElsewhere(Get(j.members, name), at[1..], w, other[1..]);
        }
      case Index(i) =>
        if other[0] == at[0] {
          PrefixTail(at, other);
          PutElsewhere(j.items[i], at[1..], w, other[1..]);
        }
    }
  }

  lemma PrefixTail(a: seq<Step>, b: seq<Step>)
    requires a != [] && b != [] && a[0] == b[0]
    ensures a <= b <==> a[1..] <= b[1..]
    ensures b <= a <==> b[1..] <= a[1..]
  {
    assert a == [a[0]] + a[1..] && b == [b[0]] + b[1..];
  }

  lemma {:induction false} PutWellFormed(j: Json, at: seq<Step>, w: Json)
    requires ValueAt(j, at).Some? && WellFormed(j) && WellFormed(w)
    ensures WellFormed(Put(j, at, w))
    decreases |at|
  {
    if at != [] {
      match at[0]
      case Key(name) => PutWellFormed(Get(j.members, name), at[1..], w);
      case Index(i) => PutWellFormed(j.items[i], at[1..], w);
    }
  }

  function NumberOf(j: Json): (r: Option<real>) {
    match j
    case Bool(b) => Some(if b then 1.0 else 0.0)
    case Int(i) => Some(i as real)
    case Float(f) => Some(f)
    case _ => None
  }

  /** Python `==`: numbers and booleans compare by value, dicts without regard to order. */
  predicate PyEq(a: Json, b: Json)
    decreases a
  {
    if NumberOf(a).Some? then NumberOf(a) == NumberOf(b)
    else match (a, b)
      case (Null, Null) => true
      case (Str(s), Str(t)) => s == t
      case (Arr(xs), Arr(ys)) => |xs| == |ys| && forall i :: 0 <= i < |xs| ==> PyEq(xs[i], ys[i])
      case (Obj(ms), Obj(ns)) =>
        |ms| == |ns| && forall i :: 0 <= i < |ms| ==> Has(ns, ms[i].key) && PyEq(ms[i].value, Get(ns, ms[i].key))
      case _ => false
  }

  lemma {:induction false} PyEqReflexive(a: Json)
    requires WellFormed(a)
    ensures PyEq(a, a)
  {
    match a
    case Arr(xs) =>
      forall i | 0 <= i < |xs| ensures PyEq(xs[i], xs[i]) {
        PyEqReflexive(xs[i]);
      }
    case Obj(ms) =>
      forall i | 0 <= i < |ms| ensures Has(ms, ms[i].key) && PyEq(ms[i].value, Get(ms, ms[i].key)) {
        GetAt(ms, i);
        PyEqReflexive(ms[i].value);
      }
    case _ =>
  }

  lemma {:induction false} PyEqTransitive(a: Json, b: Json, c: Json)
    requires PyEq(a, b) && PyEq(b, c)
    ensures PyEq(a, c)
    decreases a
  {
    match a
    case Arr(xs) =>
      forall i | 0 <= i < |xs| ensures PyEq(xs[i], c.items[i]) {
        PyEqTransitive(xs[i], b.items[i], c.items[i]);
      }
    case Obj(ms) =>
      forall i | 0 <= i < |ms| ensures Has(c.members, ms[i].key) && PyEq(ms[i].value, Get(c.members, ms[i].key)) {
        var j := IndexOf(b.members, ms[i].key);
        assert b.members[j].key == ms[i].key;
        PyEqTransitive(ms[i].value, b.members[j].value, Get(c.members, ms[i].key));
      }
    case _ =>
  }

  function KeySet(ms: seq<Member>): (r: set<string>) { set i | 0 <= i < |ms| :: ms[i].key }

  lemma {:induction false} KeySetSize(ms: seq<Member>)
    requires UniqueKeys(ms)
    ensures |KeySet(ms)| == |ms|
  {
    if ms != [] {
      var rest := ms[..|ms| - 1];
      KeySetSize(rest);
      assert KeySet(ms) == KeySet(rest) + {ms[|ms| - 1].key};
    }
  }

  /** Two dicts of one size, one's keys among the other's, have the same keys. */
  lemma SameKeys(ms: seq<Member>, ns: seq<Member>)
    requires UniqueKeys(ms) && UniqueKeys(ns) && |ms| == |ns|
    requires forall i :: 0 <= i < |ms| ==> Has(ns, ms[i].key)
    ensures forall i :: 0 <= i < |ns| ==> Has(ms, ns[i].key)
  {
    KeySetSize(ms);
    KeySetSize(ns);
    forall k | k in KeySet(ms) ensures k in KeySet(ns) {
      assert ns[IndexOf(ns, k)].key == k;
    }
    SubsetOfEqualSize(KeySet(ms), KeySet(ns));
    forall i | 0 <= i < |ns| ensures Has(ms, ns[i].key) {
      assert ns[i].key in KeySet(ms);
      HasIffMember(ms, ns[i].key);
    }
  }

  lemma SubsetOfEqualSize(a: set<string>, b: set<string>)
    requires a <= b && |a| == |b|
    ensures a == b
  {
    assert b == a + (b - a);
  }

  /** With unique keys, equality of documents does not care which side it is asked from. */
  lemma {:induction false} PyEqSymmetric(a: Json, b: Json)
    requires WellFormed(a) && WellFormed(b) && PyEq(a, b)
    ensures PyEq(b, a)
    decreases a
  {
    match a
    case Arr(xs) =>
      forall i | 0 <= i < |xs| ensures PyEq(b.items[i], xs[i]) {
        PyEqSymmetric(xs[i], b.items[i]);
      }
    case Obj(ms) =>
      var ns := b.members;
      SameKeys(ms, ns);
      forall i | 0 <= i < |ns| ensures Has(ms, ns[i].key) && PyEq(ns[i].value, Get(ms, ns[i].key)) {
        var j := IndexOf(ms, ns[i].key);
        GetAt(ns, i);
        assert WellFormed(ms[j].value) && WellFormed(ns[i].value);
        PyEqSymmetric(ms[j].value, ns[i].value);
      }
    case _ =>
  }

  // What `==` compares

  /** The nodes two documents have at one position: the same constructor and contents, numbers by value. */
  predicate Alike(x: Option<Json>, y: Option<Json>) {
    match (x, y)
    case (None, None) => true
    case (Some(Null), Some(Null)) => true
    case (Some(Str(s)), Some(Str(t))) => s == t
    case (Some(Bool(b)), Some(Bool(c))) => b == c
    case (Some(Bool(b)), Some(Int(i))) => i == if b then 1 else 0
    case (Some(Bool(b)), Some(Float(f))) => f == if b then 1.0 else 0.0
    case (Some(Int(i)), Some(Bool(b))) => i == if b then 1 else 0
    case (Some(Int(i)), Some(Int(k))) => i == k
    case (Some(Int(i)), Some(Float(f))) => i as real == f
    case (Some(Float(f)), Some(Bool(b))) => f == if b then 1.0 else 0.0
    case (Some(Float(f)), Some(Int(i))) => f == i as real
    case (Some(Float(f)), Some(Float(g))) => f == g
    case (Some(Arr(xs)), Some(Arr(ys))) => |xs| == |ys|
    case (Some(Obj(_)), Some(Obj(_))) => true
    case _ => false
  }

  /** Position by position, the two documents read alike. */
  ghost predicate SameValue(a: Json, b: Json) {
    forall at :: Alike(ValueAt(a, at), ValueAt(b, at))
  }

  lemma ChildItem(a: Json, i: nat, at: seq<Step>)
    requires a.Arr? && i < |a.items|
    ensures ValueAt(a, [Index(i)] + at) == ValueAt(a.items[i], at)
  {
    assert ([Index(i)] + at)[1..] == at;
  }

  lemma ChildMember(a: Json, name: string, at: seq<Step>)
    requires a.Obj?
    ensures ValueAt(a, [Key(name)] + at) == if Has(a.members, name) then ValueAt(Get(a.members, name), at) else None
  {
    assert ([Key(name)] + at)[1..] == at;
  }

  lemma HeadAlike(a: Json, b: Json)
    requires PyEq(a, b)
    ensures Alike(Some(a), Some(b))
  {
  }

  /** Equal documents read alike everywhere. */
  lemma {:induction false} EqualAlike(a: Json, b: Json, at: seq<Step>)
    requires WellFormed(a) && WellFormed(b) && PyEq(a, b)
    ensures Alike(ValueAt(a, at), ValueAt(b, at))
    decreases |at|
  {
    HeadAlike(a, b);
    if at != [] {
      match at[0]
      case Key(name) =>
        if a.Obj? {
          SameKeys(a.members, b.members);
          HasIffMember(a.members, name);
          HasIffMember(b.members, name);
          if Has(a.members, name) {
            EqualAlike(Get(a.members, name), Get(b.members, name), at[1..]);
          }
        }
      case Index(i) =>
        if a.Arr? && i < |a.items| {
          EqualAlike(a.items[i], b.items[i], at[1..]);
        }
    }
  }

  lemma SameItem(a: Json, b: Json, i: nat)
    requires a.Arr? && b.Arr? && i < |a.items| == |b.items| && SameValue(a, b)
    ensures SameValue(a.items[i], b.items[i])
  {
    forall at ensures Alike(ValueAt(a.items[i], at), ValueAt(b.items[i], at)) {
      ChildItem(a, i, at);
      ChildItem(b, i, at);
      assert Alike(ValueAt(a, [Index(i)] + at), ValueAt(b, [Index(i)] + at));
    }
  }

  lemma SameMember(a: Json, b: Json, name: string)
    requires a.Obj? && b.Obj? && SameValue(a, b)
    ensures Has(a.members, name) <==> Has(b.members, name)
    ensures Has(a.members, name) ==> SameValue(Get(a.members, name), Get(b.members, name))
  {
    ChildMember(a, name, []);
    ChildMember(b, name, []);
    assert Alike(ValueAt(a, [Key(name)] + []), ValueAt(b, [Key(name)] + []));
    if Has(a.members, name) && Has(b.members, name) {
      var x, y := Get(a.members, name), Get(b.members, name);
      forall at ensures Alike(ValueAt(x, at), ValueAt(y, at)) {
        ChildMember(a, name, at);
        ChildMember(b, name, at);
        assert Alike(ValueAt(a, [Key(name)] + at), ValueAt(b, [Key(name)] + at));
      }
    }
  }

  lemma SameSize(a: Json, b: Json)
    requires WellFormed(a) && WellFormed(b) && a.Obj? && b.Obj? && SameValue(a, b)
    ensures |a.members| == |b.members|
  {
    KeySetSize(a.members);
    KeySetSize(b.members);
    forall name ensures name in KeySet(a.members) <==> name in KeySet(b.members) {
      SameMember(a, b, name);
      HasIffMember(a.members, name);
      HasIffMember(b.members, name);
    }
    assert KeySet(a.members) == KeySet(b.members);
  }

  lemma {:induction false} AlikeEqual(a: Json, b: Json)
    requires WellFormed(a) && WellFormed(b) && SameValue(a, b)
    ensures PyEq(a, b)
    decreases a
  {
    assert Alike(ValueAt(a, []), ValueAt(b, []));
    match a
    case Arr(xs) =>
      forall i | 0 <= i < |xs| ensures PyEq(xs[i], b.items[i]) {
        SameItem(a, b, i);
        AlikeEqual(xs[i], b.items[i]);
      }
    case Obj(ms) =>
      SameSize(a, b);
      forall i | 0 <= i < |ms| ensures Has(b.members, ms[i].key) && PyEq(ms[i].value, Get(b.members, ms[i].key)) {
        GetAt(ms, i);
        SameMember(a, b, ms[i].key);
        var v := Get(b.members, ms[i].key);
        assert WellFormed(ms[i].value) && WellFormed(v);
        AlikeEqual(ms[i].value, v);
      }
    case _ =>
  }

  /** `==` holds of two documents exactly when they read alike at every position. */
  lemma PyEqIffSameValue(a: Json, b: Json)
    requires WellFormed(a) && WellFormed(b)
    ensures PyEq(a, b) <==> SameValue(a, b)
  {
    if PyEq(a, b) {
      forall at ensures Alike(ValueAt(a, at), ValueAt(b, at)) {
        EqualAlike(a, b, at);
      }
    }
    if SameValue(a, b) {
      AlikeEqual(a, b);
    }
  }

  /** Python truthiness, negated. */
  predicate Falsy(j: Json) {
    match j
    case Null => true
    case Bool(b) => !b
    case Int(i) => i == 0
    case Float(f) => f == 0.0
    case Str(s) => s == []
    case Arr(items) => items == []
    case Obj(ms) => ms == []
  }

  /** The seven documents that Python takes for false. */
  lemma FalsyIff(j: Json)
    ensures Falsy(j) <==>
      || j == Null || j == Bool(false) || j == Int(0) || j == Float(0.0)
      || j == Str("") || j == Arr([]) || j == Obj([])
  {
  }
}
