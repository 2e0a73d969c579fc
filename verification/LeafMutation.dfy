/** Leaf enumeration and the single-leaf mutation of a golden vector. */
module LeafMutation {
  import opened Wrappers
  import opened Json
  import opened Text
  import Sorting
  import Inventory

  function Sorted(paths: seq<string>): (r: seq<string>) {
    Sorting.Sort(paths, (a, b) => Less(a, b))
  }

  /** `_leaf_paths`: everything that is not a dict is a leaf. */
  function LeafPaths(v: Json, prefix: string): (paths: seq<string>)
    decreases v
  {
    match v
    case Obj(ms) => Sorted(MemberLeafPaths(ms, 0, prefix))
    case _ => [prefix]
  }

  function MemberLeafPaths(ms: seq<Member>, i: nat, prefix: string): (paths: seq<string>)
    requires i <= |ms|
    decreases ms, |ms| - i
  {
    if i == |ms| then []
    else LeafPaths(ms[i].value, Inventory.KeyPath(prefix, ms[i].key)) + MemberLeafPaths(ms, i + 1, prefix)
  }

  /** The loop of the source, which extends the list member by member. */
  method CollectLeafPaths(v: Json, prefix: string) returns (paths: seq<string>)
    ensures paths == LeafPaths(v, prefix)
    decreases v
  {
    if !v.Obj? { return [prefix]; }
    var found: seq<string> := [];
    for i := 0 to |v.members|
      invariant found + MemberLeafPaths(v.members, i, prefix) == MemberLeafPaths(v.members, 0, prefix)
    {
      var below := CollectLeafPaths(v.members[i].value, Inventory.KeyPath(prefix, v.members[i].key));
      found := found + below;
    }
    assert found + [] == found;
    return Sorted(found);
  }

  /** `path.split(".")`. */
  function Split(path: string): (parts: seq<string>)
    ensures parts != []
  {
    if path == "" then [""]
    else
      var rest := Split(path[1..]);
      if path[0] == '.' then [""] + rest else [[path[0]] + rest[0]] + rest[1..]
  }

  function Keys(names: seq<string>): (at: seq<Step>)
    ensures |at| == |names| && forall i :: 0 <= i < |names| ==> at[i] == Key(names[i])
  {
    seq(|names|, i requires 0 <= i < |names| => Key(names[i]))
  }

  datatype MutationError = NoSuchPath | NotScalar

  /** The one change made to a scalar: an int is incremented, a string gets a suffix; a bool is not an int here. */
  function Mutated(value: Json): (r: Result<Json, MutationError>) {
    match value
    case Int(i) => Ok(Int(i + 1))
    case Str(s) => Ok(Str(s + "-mutated"))
    case _ => Err(NotScalar)
  }

  /** `_mutate_leaf`. `NoSuchPath` stands for the `KeyError` or `TypeError` of a step that leads nowhere. */
  function MutateLeaf(document: Json, path: string): (r: Result<Json, MutationError>) {
    var at := Keys(Split(path));
    match ValueAt(document, at)
    case None => Err(NoSuchPath)
    case Some(value) => match Mutated(value)
      case Err(e) => Err(e)
      case Ok(changed) => Ok(Put(document, at, changed))
  }

  /** The walk to the parent, then the read, the check and the write. */
  method WalkAndMutate(document: Json, path: string) returns (r: Result<Json, MutationError>)
    ensures r == MutateLeaf(document, path)
  {
    var names := Split(path);
    var at := Keys(names);
    var target := document;
    for k := 0 to |names|
      invariant ValueAt(document, at) == ValueAt(target, at[k..])
    {
      if !target.Obj? || !Has(target.members, names[k]) { return Err(NoSuchPath); }
      assert at[k..][0] == Key(names[k]) && at[k..][1..] == at[k + 1..];
      target := Get(target.members, names[k]);
    }
    assert at[|names|..] == [];
    if !target.Str? && !target.Int? { return Err(NotScalar); }
    return Ok(Put(document, at, if target.Int? then Int(target.i + 1) else Str(target.s + "-mutated")));
  }

  // Leaf positions

  /** A path of keys, not empty, that ends at something other than a dict. */
  predicate IsLeaf(v: Json, at: seq<Step>) {
    && (forall i :: 0 <= i < |at| ==> at[i].Key?)
    && ValueAt(v, at).Some?
    && !ValueAt(v, at).value.Obj?
  }

  ghost predicate LeafSpells(v: Json, at: seq<Step>, prefix: string, p: string) {
    IsLeaf(v, at) && Inventory.Spelled(prefix, at) == p
  }

  ghost predicate LeafSpelled(v: Json, prefix: string, p: string) {
    exists at :: LeafSpells(v, at, prefix, p)
  }

  lemma SortedElements(paths: seq<string>)
    ensures forall p :: p in Sorted(paths) <==> p in paths
  {
    Sorting.SortPermutes(paths, (a, b) => Less(a, b));
    Sorting.InMultiset(Sorted(paths), paths);
  }

  lemma LessOrders()
    ensures Sorting.TotalOrder((a: string, b: string) => Less(a, b))
  {
    forall x: string, y: string, z: string | Less(x, y) && Less(y, z) ensures Less(x, z) {
      LessTransitive(x, y, z);
    }
    forall x: string, y: string ensures Less(x, y) || Less(y, x) || x == y {
      LessTotal(x, y);
    }
    forall x: string ensures !Less(x, x) {
      LessTotal(x, x);
    }
  }

  /** The paths of a dict are listed in code-point order. */
  lemma PathsInOrder(v: Json, prefix: string)
    requires v.Obj?
    ensures var paths := LeafPaths(v, prefix);
      forall i, j :: 0 <= i < j < |paths| ==> !Earlier(paths[j], paths[i])
  {
    var paths := LeafPaths(v, prefix);
    LessOrders();
    Sorting.SortOrders(MemberLeafPaths(v.members, 0, prefix), (a, b) => Less(a, b));
    forall i, j | 0 <= i < j < |paths| ensures !Earlier(paths[j], paths[i]) {
      LessIffEarlier(paths[j], paths[i]);
    }
  }

  /** The listed paths are the spellings of the leaves. */
  lemma {:induction false} PathsAreLeaves(v: Json, prefix: string, p: string)
    requires WellFormed(v)
    ensures p in LeafPaths(v, prefix) <==> LeafSpelled(v, prefix, p)
    decreases v
  {
    match v
    case Obj(ms) =>
      SortedElements(MemberLeafPaths(ms, 0, prefix));
      MembersAreLeaves(ms, 0, prefix, p);
      assert forall at :: LeafSpells(v, at, prefix, p) <==> LeafSpellsFrom(ms, at, prefix, p, 0);
    case _ =>
      if p == prefix {
        assert LeafSpells(v, [], prefix, p);
      }
      assert forall at :: LeafSpells(v, at, prefix, p) ==> at == [];
  }

  ghost predicate LeafSpellsFrom(ms: seq<Member>, at: seq<Step>, prefix: string, p: string, i: nat) {
    LeafSpells(Obj(ms), at, prefix, p) && at != [] && IndexOf(ms, at[0].name) >= i
  }

  ghost predicate LeafSpelledFrom(ms: seq<Member>, prefix: string, p: string, i: nat) {
    exists at :: LeafSpellsFrom(ms, at, prefix, p, i)
  }

  /** A leaf below member `i`. */
  ghost predicate LeafSpellsIn(ms: seq<Member>, at: seq<Step>, prefix: string, p: string, i: nat) {
    LeafSpells(Obj(ms), at, prefix, p) && at != [] && IndexOf(ms, at[0].name) == i
  }

  ghost predicate LeafSpelledIn(ms: seq<Member>, prefix: string, p: string, i: nat) {
    exists at :: LeafSpellsIn(ms, at, prefix, p, i)
  }

  lemma LeafBelow(ms: seq<Member>, i: nat, prefix: string, p: string, below: seq<Step>)
    requires i < |ms| && UniqueKeys(ms)
    ensures LeafSpells(ms[i].value, below, Inventory.KeyPath(prefix, ms[i].key), p) <==>
      LeafSpellsIn(ms, [Key(ms[i].key)] + below, prefix, p, i)
  {
    var at := [Key(ms[i].key)] + below;
    GetAt(ms, i);
    assert at[1..] == below;
    assert IsLeaf(ms[i].value, below) <==> IsLeaf(Obj(ms), at) by {
      assert forall k :: 0 <= k < |below| ==> below[k] == at[k + 1];
    }
  }

  /** The leaves of one member. */
  lemma MemberLeaves(ms: seq<Member>, i: nat, prefix: string, p: string)
    requires i < |ms| && UniqueKeys(ms)
    ensures LeafSpelled(ms[i].value, Inventory.KeyPath(prefix, ms[i].key), p) <==> LeafSpelledIn(ms, prefix, p, i)
  {
    var child, path := ms[i].value, Inventory.KeyPath(prefix, ms[i].key);
    if exists below :: LeafSpells(child, below, path, p) {
      var below :| LeafSpells(child, below, path, p);
      LeafBelow(ms, i, prefix, p, below);
    }
    if exists at :: LeafSpellsIn(ms, at, prefix, p, i) {
      var at :| LeafSpellsIn(ms, at, prefix, p, i);
      assert at == [Key(ms[i].key)] + at[1..];
      LeafBelow(ms, i, prefix, p, at[1..]);
    }
  }

  lemma {:induction false} MembersAreLeaves(ms: seq<Member>, i: nat, prefix: string, p: string)
    requires i <= |ms| && WellFormed(Obj(ms))
    ensures p in MemberLeafPaths(ms, i, prefix) <==> LeafSpelledFrom(ms, prefix, p, i)
    decreases ms, |ms| - i
  {
    if i < |ms| {
      PathsAreLeaves(ms[i].value, Inventory.KeyPath(prefix, ms[i].key), p);
      MembersAreLeaves(ms, i + 1, prefix, p);
      MemberLeaves(ms, i, prefix, p);
      SplitFirstLeaf(ms, prefix, p, i, i + 1);
    }
  }

  /** The leaves from member `i` on are those below member `i` and those from `i + 1` on. */
  lemma SplitFirstLeaf(ms: seq<Member>, prefix: string, p: string, i: nat, next: nat)
    requires next == i + 1
    ensures LeafSpelledFrom(ms, prefix, p, i) <==>
      LeafSpelledIn(ms, prefix, p, i) || LeafSpelledFrom(ms, prefix, p, next)
  {
    if exists at :: LeafSpellsFrom(ms, at, prefix, p, i) {
      var at :| LeafSpellsFrom(ms, at, prefix, p, i);
      assert LeafSpellsIn(ms, at, prefix, p, i) || LeafSpellsFrom(ms, at, prefix, p, next);
    }
    if exists at :: LeafSpellsIn(ms, at, prefix, p, i) {
      var at :| LeafSpellsIn(ms, at, prefix, p, i);
      assert LeafSpellsFrom(ms, at, prefix, p, i);
    }
    if exists at :: LeafSpellsFrom(ms, at, prefix, p, next) {
      var at :| LeafSpellsFrom(ms, at, prefix, p, next);
      assert LeafSpellsFrom(ms, at, prefix, p, i);
    }
  }

  // A dotted path splits back into the keys it was spelled from

  lemma {:induction false} SplitHead(name: string, rest: string)
    requires '.' !in name
    ensures Split(name) == [name]
    ensures Split(name + "." + rest) == [name] + Split(rest)
  {
    var s := name + "." + rest;
    if name == "" {
      assert s[1..] == rest;
    } else {
      SplitHead(name[1..], rest);
      assert s[1..] == name[1..] + "." + rest;
      assert name == [name[0]] + name[1..];
    }
  }

  predicate DotFree(at: seq<Step>) {
    forall i :: 0 <= i < |at| ==> at[i].Key? && '.' !in at[i].name
  }

  lemma SplitSpelled(prefix: string, at: seq<Step>)
    requires '.' !in prefix && DotFree(at) && (prefix != "" || at == [])
    ensures Keys(Split(Inventory.Spelled(prefix, at))) == [Key(prefix)] + at
    decreases |at|
  {
    if at == [] {
      SplitHead(prefix, "");
    } else {
      SplitBelow(at[0].name, at[1..]);
      SpelledBelow(prefix, at);
      SplitOnce(prefix, Below(at[0].name, at[1..]), at);
    }
  }

  /** The spelling behind a key that something stands before. */
  function Below(name: string, at: seq<Step>): (s: string) { name + Inventory.Segments(at) }

  /** Splitting off one key in front of a text that splits into the keys of `at`. */
  lemma SplitOnce(name: string, rest: string, at: seq<Step>)
    requires '.' !in name && at != [] && at[0].Key? && Keys(Split(rest)) == [Key(at[0].name)] + at[1..]
    ensures Keys(Split(name + "." + rest)) == [Key(name)] + at
  {
    SplitHead(name, rest);
    assert Keys([name] + Split(rest)) == [Key(name)] + Keys(Split(rest));
    assert at == [at[0]] + at[1..];
  }

  lemma {:induction false} SplitBelow(name: string, at: seq<Step>)
    requires '.' !in name && DotFree(at)
    ensures Keys(Split(Below(name, at))) == [Key(name)] + at
    decreases |at|
  {
    if at == [] {
      SplitHead(name, "");
      assert name + "" == name;
    } else {
      SplitBelow(at[0].name, at[1..]);
      BelowStep(name, at);
      SplitOnce(name, Below(at[0].name, at[1..]), at);
    }
  }

  lemma BelowStep(name: string, at: seq<Step>)
    requires at != [] && at[0].Key?
    ensures Below(name, at) == name + "." + Below(at[0].name, at[1..])
  {
    Associates(".", at[0].name, Inventory.Segments(at[1..]));
    Associates(name, ".", Below(at[0].name, at[1..]));
  }

  lemma SpelledBelow(prefix: string, at: seq<Step>)
    requires prefix != "" && at != [] && at[0].Key?
    ensures Inventory.Spelled(prefix, at) == prefix + "." + Below(at[0].name, at[1..])
  {
    Inventory.SpelledSegments(prefix, at);
    BelowStep(prefix, at);
  }

  lemma {:induction false} SplitDotFree(path: string)
    ensures DotFree(Keys(Split(path)))
  {
    if path != "" {
      var rest := Split(path[1..]);
      SplitDotFree(path[1..]);
      forall i | 0 <= i < |rest| ensures '.' !in rest[i] {
        assert '.' !in Keys(rest)[i].name;
      }
    }
  }

  /** Leading empty keys leave no trace in the spelling. */
  lemma {:induction false} EmptyHeadSplits(at: seq<Step>)
    requires at != [] && DotFree(at)
    ensures |Split(Inventory.Spelled("", at))| <= |at|
    ensures at[0].name == "" && |at| > 1 ==> |Split(Inventory.Spelled("", at))| < |at|
    decreases |at|
  {
    if at[0].name == "" && |at| > 1 {
      EmptyHeadSplits(at[1..]);
    } else {
      SplitSpelled(at[0].name, at[1..]);
    }
  }

  /** No key has a dot, and the first is not empty unless it is the only one. */
  predicate Splittable(at: seq<Step>) {
    DotFree(at) && at != [] && (|at| > 1 ==> at[0].name != "")
  }

  /** The spelling of a position leads back to it exactly when its keys are free of dots and none is lost. */
  lemma SplitsBackIff(at: seq<Step>)
    requires at != [] && forall i :: 0 <= i < |at| ==> at[i].Key?
    ensures Keys(Split(Inventory.Spelled("", at))) == at <==> Splittable(at)
  {
    SplitDotFree(Inventory.Spelled("", at));
    if Splittable(at) {
      SplitSpelled(at[0].name, at[1..]);
      assert at == [at[0]] + at[1..];
    } else if DotFree(at) {
      EmptyHeadSplits(at);
    }
  }

  /** Replacing one scalar by another leaves every position not on the way to it alone. */
  lemma ScalarPutElsewhere(v: Json, at: seq<Step>, changed: Json, other: seq<Step>)
    requires ValueAt(v, at).Some? && !(other <= at)
    requires !Inventory.Container(ValueAt(v, at).value) && !Inventory.Container(changed)
    ensures ValueAt(Put(v, at, changed), other) == ValueAt(v, other)
  {
    if at <= other {
      var below := other[|at|..];
      assert other == at + below && below != [];
      PutReads(v, at, changed, below);
      Inventory.ValueAtConcat(v, at, below);
    } else {
      PutElsewhere(v, at, changed, other);
    }
  }

  lemma MutateReads(v: Json, path: string)
    requires MutateLeaf(v, path).Ok?
    ensures MutatedAt(v, Keys(Split(path)), MutateLeaf(v, path))
  {
    var at := Keys(Split(path));
    var changed := Mutated(ValueAt(v, at).value).value;
    MutatedDiffers(ValueAt(v, at).value);
    PutReads(v, at, changed, []);
    assert at + [] == at;
    assert MutateLeaf(v, path).value == Put(v, at, changed);
    forall other | !(other <= at) ensures ValueAt(Put(v, at, changed), other) == ValueAt(v, other) {
      ScalarPutElsewhere(v, at, changed, other);
    }
  }

  lemma MutatedDiffers(value: Json)
    requires Mutated(value).Ok?
    ensures Mutated(value).value != value
    ensures !Inventory.Container(value) && !Inventory.Container(Mutated(value).value)
  {
    if value.Str? {
      assert |value.s + "-mutated"| != |value.s|;
    }
  }

  /**
   * The path listed for a leaf mutates that leaf, and changes nothing that is not on the way to it, when its
   * keys are splittable; a string or an int is mutated in place exactly then.
   */
  lemma MutationChangesOneLeaf(v: Json, at: seq<Step>)
    requires IsLeaf(v, at) && at != []
    ensures var r := MutateLeaf(v, Inventory.Spelled("", at));
      && (Splittable(at) ==> MutatedAt(v, at, r))
      && (ValueAt(v, at).value.Str? || ValueAt(v, at).value.Int? ==> (MutatedAt(v, at, r) <==> Splittable(at)))
  {
    var path := Inventory.Spelled("", at);
    if Mutated(ValueAt(v, at).value).Ok? {
      MutatedDiffers(ValueAt(v, at).value);
    }
    var reached := Keys(Split(path));
    SplitsBackIff(at);
    if MutateLeaf(v, path).Ok? {
      MutateReads(v, path);
      if reached != at && at <= reached {
        assert reached == at + reached[|at|..];
        Inventory.ValueAtConcat(v, at, reached[|at|..]);
      }
    }
  }

  ghost predicate MutatedAt(v: Json, at: seq<Step>, r: Result<Json, MutationError>)
    requires ValueAt(v, at).Some?
  {
    var value := ValueAt(v, at).value;
    && (r.Ok? <==> value.Int? || value.Str?)
    && (r.Err? ==> r.error == NotScalar)
    && (r.Ok? ==>
          && ValueAt(r.value, at).Some?
          && ValueAt(r.value, at).value == (if value.Int? then Int(value.i + 1) else Str(value.s + "-mutated"))
          && forall other :: !(other <= at) ==> ValueAt(r.value, other) == ValueAt(v, other))
  }

  /** A mutated vector lists the leaf paths the original listed. */
  lemma MutationKeepsLeafPaths(v: Json, path: string, p: string)
    requires WellFormed(v) && MutateLeaf(v, path).Ok?
    ensures p in LeafPaths(MutateLeaf(v, path).value, "") <==> p in LeafPaths(v, "")
  {
    var w, at := MutateLeaf(v, path).value, Keys(Split(path));
    MutateReads(v, path);
    PutWellFormed(v, at, Mutated(ValueAt(v, at).value).value);
    PathsAreLeaves(v, "", p);
    PathsAreLeaves(w, "", p);
    forall other ensures LeafSpells(v, other, "", p) <==> LeafSpells(w, other, "", p) {
      SameLeaf(v, w, at, other);
    }
    assert LeafSpelled(v, "", p) <==> LeafSpelled(w, "", p);
  }

  /** Where only the scalar at `at` changed, the leaves are in the same places. */
  lemma SameLeaf(v: Json, w: Json, at: seq<Step>, other: seq<Step>)
    requires IsLeaf(v, at) && IsLeaf(w, at)
    requires !(other <= at) ==> ValueAt(w, other) == ValueAt(v, other)
    ensures IsLeaf(v, other) <==> IsLeaf(w, other)
  {
    if other <= at {
      if |other| == |at| {
        assert other == at;
      } else {
        InnerIsDict(v, at, other);
        InnerIsDict(w, at, other);
      }
    }
  }

  lemma InnerIsDict(v: Json, at: seq<Step>, inner: seq<Step>)
    requires ValueAt(v, at).Some? && inner < at && at[|inner|].Key?
    ensures ValueAt(v, inner).Some? && ValueAt(v, inner).value.Obj?
  {
    assert at == inner + at[|inner|..];
    Inventory.ValueAtConcat(v, inner, at[|inner|..]);
  }
}
