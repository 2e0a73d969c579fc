/** The field inventory of a golden vector: path enumeration and the gate that holds a vector to its declarations. */
module Inventory {
  import opened Wrappers
  import opened Json
  import opened Text

  function KeyPath(prefix: string, key: string): (s: string) {
    if prefix == "" then key else prefix + "." + key
  }

  function IndexPath(prefix: string, i: nat): (s: string) { prefix + "[" + NatText(i) + "]" }

  predicate Container(j: Json) { j.Obj? || j.Arr? }

  /** `_field_paths`. */
  function FieldPaths(v: Json, prefix: string, opaquePaths: set<string>): (paths: seq<string>)
    decreases v
  {
    match v
    case Obj(ms) => MemberPaths(ms, 0, prefix, opaquePaths)
    case Arr(items) => ItemPaths(items, 0, prefix, opaquePaths)
    case _ => []
  }

  function MemberPaths(ms: seq<Member>, i: nat, prefix: string, opaquePaths: set<string>): (paths: seq<string>)
    requires i <= |ms|
    decreases ms, |ms| - i
  {
    if i == |ms| then []
    else
      var path := KeyPath(prefix, ms[i].key);
      [path]
      + (if path in opaquePaths then [] else FieldPaths(ms[i].value, path, opaquePaths))
      + MemberPaths(ms, i + 1, prefix, opaquePaths)
  }

  function ItemPaths(items: seq<Json>, i: nat, prefix: string, opaquePaths: set<string>): (paths: seq<string>)
    requires i <= |items|
    decreases items, |items| - i
  {
    if i == |items| then []
    else
      var path := IndexPath(prefix, i);
      (if !Container(items[i]) then []
       else [path] + (if path in opaquePaths then [] else FieldPaths(items[i], path, opaquePaths)))
      + ItemPaths(items, i + 1, prefix, opaquePaths)
  }

  datatype Refusal =
    | DeclaredTwice(paths: set<string>) | OpaqueUndeclared(paths: set<string>)
    | Undeclared(paths: set<string>) | Absent(paths: set<string>)

  /** `require_field_inventory`. */
  function RequireFieldInventory(
    vector: Json, validated: set<string>, descriptive: set<string>, opaquePaths: set<string>
  ): (r: Result<(), Refusal>) {
    var overlap := validated * descriptive;
    var unknownOpaque := opaquePaths - validated - descriptive;
    var actual := set p | p in FieldPaths(vector, "", opaquePaths);
    var undeclared := actual - validated - descriptive;
    var absent := (validated + descriptive) - actual;
    if overlap != {} then Err(DeclaredTwice(overlap))
    else if unknownOpaque != {} then Err(OpaqueUndeclared(unknownOpaque))
    else if undeclared != {} then Err(Undeclared(undeclared))
    else if absent != {} then Err(Absent(absent))
    else Ok(())
  }

  // Positions: where a path leads, rather than how it is spelled

  function StepPath(prefix: string, step: Step): (s: string) {
    match step
    case Key(name) => KeyPath(prefix, name)
    case Index(i) => IndexPath(prefix, i)
  }

  function Spelled(prefix: string, at: seq<Step>): (s: string)
    decreases |at|
  {
    if at == [] then prefix else Spelled(StepPath(prefix, at[0]), at[1..])
  }

  /** A field position: a key anywhere, or a list index that holds a dict or a list. */
  predicate IsField(v: Json, at: seq<Step>) {
    && at != []
    && ValueAt(v, at).Some?
    && (at[|at| - 1].Key? || Container(ValueAt(v, at).value))
  }

  /** A field position none of whose ancestors is declared opaque. */
  predicate Visible(v: Json, at: seq<Step>, prefix: string, opaquePaths: set<string>) {
    IsField(v, at) && forall k :: 1 <= k < |at| ==> Spelled(prefix, at[..k]) !in opaquePaths
  }

  lemma VisibleUnfolds(v: Json, at: seq<Step>, prefix: string, opaquePaths: set<string>)
    requires at != []
    ensures Visible(v, at, prefix, opaquePaths) <==>
      && ValueAt(v, at[..1]).Some?
      && var child := ValueAt(v, at[..1]).value;
         if |at| == 1 then at[0].Key? || Container(child)
         else StepPath(prefix, at[0]) !in opaquePaths && Visible(child, at[1..], StepPath(prefix, at[0]), opaquePaths)
    ensures Spelled(prefix, at) == Spelled(StepPath(prefix, at[0]), at[1..])
  {
    assert at[..1][0] == at[0] && at[..1][1..] == [];
    if |at| == 1 {
      assert at == at[..1];
    } else {
      var rest, path := at[1..], StepPath(prefix, at[0]);
      assert Spelled(prefix, at[..1]) == path;
      assert at[|at| - 1] == rest[|rest| - 1];
      forall k | 1 <= k < |rest|
        ensures Spelled(prefix, at[..k + 1]) == Spelled(path, rest[..k])
      {
        assert at[..k + 1][0] == at[0] && at[..k + 1][1..] == rest[..k];
      }
      if forall k :: 1 <= k < |at| ==> Spelled(prefix, at[..k]) !in opaquePaths {
        assert Spelled(prefix, at[..1]) !in opaquePaths;
        forall k | 1 <= k < |rest| ensures Spelled(path, rest[..k]) !in opaquePaths {
          assert Spelled(prefix, at[..k + 1]) !in opaquePaths;
        }
      }
      if path !in opaquePaths && forall k :: 1 <= k < |rest| ==> Spelled(path, rest[..k]) !in opaquePaths {
        forall k | 1 <= k < |at| ensures Spelled(prefix, at[..k]) !in opaquePaths {
          if k > 1 {
            assert Spelled(path, rest[..k - 1]) !in opaquePaths;
          }
        }
      }
    }
  }

  ghost predicate Spells(v: Json, at: seq<Step>, prefix: string, opaquePaths: set<string>, p: string) {
    Visible(v, at, prefix, opaquePaths) && Spelled(prefix, at) == p
  }

  ghost predicate SpelledIn(v: Json, prefix: string, opaquePaths: set<string>, p: string) {
    exists at :: Spells(v, at, prefix, opaquePaths, p)
  }

  /** Where a step leads among the children of a node. */
  function Ordinal(v: Json, step: Step): (n: nat) {
    match step
    case Key(name) => if v.Obj? then IndexOf(v.members, name) else 0
    case Index(i) => i
  }

  ghost predicate SpellsFrom(v: Json, at: seq<Step>, prefix: string, opaquePaths: set<string>, p: string, i: nat) {
    Spells(v, at, prefix, opaquePaths, p) && Ordinal(v, at[0]) >= i
  }

  ghost predicate SpelledFrom(v: Json, prefix: string, opaquePaths: set<string>, p: string, i: nat) {
    exists at :: SpellsFrom(v, at, prefix, opaquePaths, p, i)
  }

  ghost predicate SpelledThrough(v: Json, step: Step, prefix: string, opaquePaths: set<string>, p: string) {
    exists at :: Spells(v, at, prefix, opaquePaths, p) && at[0] == step
  }

  /** The enumeration yields the spellings of the visible positions, and nothing else. */
  lemma {:induction false} PathsArePositions(v: Json, prefix: string, opaquePaths: set<string>, p: string)
    requires WellFormed(v)
    ensures p in FieldPaths(v, prefix, opaquePaths) <==> SpelledIn(v, prefix, opaquePaths, p)
    decreases v
  {
    match v
    case Obj(ms) =>
      MembersArePositions(ms, 0, prefix, opaquePaths, p);
      assert forall at :: SpellsFrom(v, at, prefix, opaquePaths, p, 0) <==> Spells(v, at, prefix, opaquePaths, p);
    case Arr(items) =>
      ItemsArePositions(items, 0, prefix, opaquePaths, p);
      assert forall at :: SpellsFrom(v, at, prefix, opaquePaths, p, 0) <==> Spells(v, at, prefix, opaquePaths, p);
    case _ =>
      assert forall at :: !Spells(v, at, prefix, opaquePaths, p);
  }

  /** `p` is the path to a child, or one below it. */
  predicate ThroughChild(step: Step, child: Json, prefix: string, opaquePaths: set<string>, p: string) {
    var path := StepPath(prefix, step);
    ((step.Key? || Container(child)) && p == path)
    || (path !in opaquePaths && p in FieldPaths(child, path, opaquePaths))
  }

  /** One child: the path to it, and the paths below it. */
  lemma ChildPositions(v: Json, step: Step, child: Json, prefix: string, opaquePaths: set<string>, p: string)
    requires ValueAt(v, [step]) == Some(child)
    requires var path := StepPath(prefix, step);
      p in FieldPaths(child, path, opaquePaths) <==> SpelledIn(child, path, opaquePaths, p)
    ensures ThroughChild(step, child, prefix, opaquePaths, p) <==> SpelledThrough(v, step, prefix, opaquePaths, p)
  {
    if ThroughChild(step, child, prefix, opaquePaths, p) {
      ChildSpelled(v, step, child, prefix, opaquePaths, p);
    }
    if at :| Spells(v, at, prefix, opaquePaths, p) && at[0] == step {
      VisibleUnfolds(v, at, prefix, opaquePaths);
      assert at[..1] == [step];
      if |at| == 1 {
        assert at[1..] == [];
      } else {
        assert Spells(child, at[1..], StepPath(prefix, step), opaquePaths, p);
      }
    }
  }

  lemma ChildSpelled(v: Json, step: Step, child: Json, prefix: string, opaquePaths: set<string>, p: string)
    requires ValueAt(v, [step]) == Some(child) && ThroughChild(step, child, prefix, opaquePaths, p)
    requires var path := StepPath(prefix, step);
      p in FieldPaths(child, path, opaquePaths) <==> SpelledIn(child, path, opaquePaths, p)
    ensures SpelledThrough(v, step, prefix, opaquePaths, p)
  {
    var path := StepPath(prefix, step);
    var at := [step];
    if !((step.Key? || Container(child)) && p == path) {
      var below :| Spells(child, below, path, opaquePaths, p);
      at := [step] + below;
      assert at[1..] == below;
    } else {
      assert at[1..] == [];
    }
    assert at[..1] == [step];
    VisibleUnfolds(v, at, prefix, opaquePaths);
    assert Spells(v, at, prefix, opaquePaths, p) && at[0] == step;
  }

  lemma MemberPathsIn(ms: seq<Member>, i: nat, prefix: string, opaquePaths: set<string>, p: string)
    requires i < |ms|
    ensures p in MemberPaths(ms, i, prefix, opaquePaths) <==>
      || ThroughChild(Key(ms[i].key), ms[i].value, prefix, opaquePaths, p)
      || p in MemberPaths(ms, i + 1, prefix, opaquePaths)
  {
  }

  lemma ItemPathsIn(items: seq<Json>, i: nat, prefix: string, opaquePaths: set<string>, p: string)
    requires i < |items|
    ensures p in ItemPaths(items, i, prefix, opaquePaths) <==>
      || (Container(items[i]) && ThroughChild(Index(i), items[i], prefix, opaquePaths, p))
      || p in ItemPaths(items, i + 1, prefix, opaquePaths)
  {
  }

  lemma KeyOrdinal(ms: seq<Member>, i: nat, prefix: string, opaquePaths: set<string>, p: string)
    requires i < |ms| && UniqueKeys(ms)
    ensures forall at :: Spells(Obj(ms), at, prefix, opaquePaths, p) ==>
      (Ordinal(Obj(ms), at[0]) == i <==> at[0] == Key(ms[i].key))
  {
    GetAt(ms, i);
  }

  /** Child `i` and the children after it together. */
  lemma JoinChild(
    v: Json, step: Step, child: Json, prefix: string, opaquePaths: set<string>, p: string, i: nat, next: nat)
    requires next == i + 1 && ValueAt(v, [step]) == Some(child)
    requires forall at :: Spells(v, at, prefix, opaquePaths, p) ==> (Ordinal(v, at[0]) == i <==> at[0] == step)
    requires var path := StepPath(prefix, step);
      p in FieldPaths(child, path, opaquePaths) <==> SpelledIn(child, path, opaquePaths, p)
    ensures SpelledFrom(v, prefix, opaquePaths, p, i) <==>
      ThroughChild(step, child, prefix, opaquePaths, p) || SpelledFrom(v, prefix, opaquePaths, p, next)
  {
    ChildPositions(v, step, child, prefix, opaquePaths, p);
    SplitFirst(v, step, prefix, opaquePaths, p, i, next);
  }

  lemma {:induction false} MembersArePositions(
    ms: seq<Member>, i: nat, prefix: string, opaquePaths: set<string>, p: string)
    requires i <= |ms| && WellFormed(Obj(ms))
    ensures p in MemberPaths(ms, i, prefix, opaquePaths) <==>
      SpelledFrom(Obj(ms), prefix, opaquePaths, p, i)
    decreases ms, |ms| - i
  {
    if i < |ms| {
      var child, step := ms[i].value, Key(ms[i].key);
      GetAt(ms, i);
      PathsArePositions(child, StepPath(prefix, step), opaquePaths, p);
      MembersArePositions(ms, i + 1, prefix, opaquePaths, p);
      KeyOrdinal(ms, i, prefix, opaquePaths, p);
      JoinChild(Obj(ms), step, child, prefix, opaquePaths, p, i, i + 1);
      MemberPathsIn(ms, i, prefix, opaquePaths, p);
    }
  }

  lemma {:induction false} ItemsArePositions(
    items: seq<Json>, i: nat, prefix: string, opaquePaths: set<string>, p: string)
    requires i <= |items| && WellFormed(Arr(items))
    ensures p in ItemPaths(items, i, prefix, opaquePaths) <==>
      SpelledFrom(Arr(items), prefix, opaquePaths, p, i)
    decreases items, |items| - i
  {
    if i < |items| {
      var child, step := items[i], Index(i);
      PathsArePositions(child, StepPath(prefix, step), opaquePaths, p);
      ItemsArePositions(items, i + 1, prefix, opaquePaths, p);
      JoinChild(Arr(items), step, child, prefix, opaquePaths, p, i, i + 1);
      ItemPathsIn(items, i, prefix, opaquePaths, p);
    }
  }

  /** The positions from child `i` on are those through child `i` and those from `i + 1` on. */
  lemma SplitFirst(v: Json, step: Step, prefix: string, opaquePaths: set<string>, p: string, i: nat, next: nat)
    requires next == i + 1
    requires forall at :: Spells(v, at, prefix, opaquePaths, p) ==> (Ordinal(v, at[0]) == i <==> at[0] == step)
    ensures SpelledFrom(v, prefix, opaquePaths, p, i) <==>
      SpelledThrough(v, step, prefix, opaquePaths, p) || SpelledFrom(v, prefix, opaquePaths, p, next)
  {
    if exists at :: SpellsFrom(v, at, prefix, opaquePaths, p, i) {
      var at :| SpellsFrom(v, at, prefix, opaquePaths, p, i);
      assert at[0] == step || SpellsFrom(v, at, prefix, opaquePaths, p, next);
    }
    if exists at :: Spells(v, at, prefix, opaquePaths, p) && at[0] == step {
      var at :| Spells(v, at, prefix, opaquePaths, p) && at[0] == step;
      assert SpellsFrom(v, at, prefix, opaquePaths, p, i);
    }
    if exists at :: SpellsFrom(v, at, prefix, opaquePaths, p, next) {
      var at :| SpellsFrom(v, at, prefix, opaquePaths, p, next);
      assert SpellsFrom(v, at, prefix, opaquePaths, p, i);
    }
  }

  // Clean keys make the spelling of a position unambiguous

  predicate CleanKey(key: string) { key != "" && '.' !in key && '[' !in key }

  predicate CleanStep(step: Step) { step.Key? ==> CleanKey(step.name) }

  predicate CleanAt(at: seq<Step>) { forall i :: 0 <= i < |at| ==> CleanStep(at[i]) }

  predicate CleanKeys(j: Json) {
    match j
    case Arr(items) => forall i :: 0 <= i < |items| ==> CleanKeys(items[i])
    case Obj(ms) => forall i :: 0 <= i < |ms| ==> CleanKey(ms[i].key) && CleanKeys(ms[i].value)
    case _ => true
  }

  lemma {:induction false} CleanPositions(v: Json, at: seq<Step>)
    requires CleanKeys(v) && ValueAt(v, at).Some?
    ensures CleanAt(at)
    decreases |at|
  {
    if at != [] {
      match at[0] {
        case Key(name) =>
          assert CleanKey(v.members[IndexOf(v.members, name)].key);
          CleanPositions(Get(v.members, name), at[1..]);
        case Index(i) =>
          CleanPositions(v.items[i], at[1..]);
      }
      assert forall i :: 0 < i < |at| ==> at[i] == at[1..][i - 1];
    }
  }

  /** What a step adds behind a non-empty prefix. */
  function Segment(step: Step): (s: string)
    ensures s != "" && Delimiter(s[0])
  {
    match step
    case Key(name) => "." + name
    case Index(i) => "[" + NatText(i) + "]"
  }

  predicate Delimiter(c: char) { c == '.' || c == '[' }

  function Segments(at: seq<Step>): (s: string)
    decreases |at|
  {
    if at == [] then "" else Segment(at[0]) + Segments(at[1..])
  }

  lemma StepSegment(prefix: string, step: Step)
    requires prefix != ""
    ensures StepPath(prefix, step) == prefix + Segment(step)
  {
    if step.Index? {
      assert prefix + "[" + NatText(step.i) + "]" == prefix + ("[" + NatText(step.i) + "]");
    }
  }

  lemma {:induction false} SpelledSegments(prefix: string, at: seq<Step>)
    requires prefix != ""
    ensures Spelled(prefix, at) == prefix + Segments(at)
    decreases |at|
  {
    if at == [] {
      assert prefix + "" == prefix;
    } else {
      StepSegment(prefix, at[0]);
      SpelledSegments(StepPath(prefix, at[0]), at[1..]);
      Associates(prefix, Segment(at[0]), Segments(at[1..]));
    }
  }

  /** The first delimiter at or after `i`. */
  function CutFrom(s: string, i: nat): (n: nat)
    decreases |s| - i
  {
    if i >= |s| || Delimiter(s[i]) then i else CutFrom(s, i + 1)
  }

  /** `h` is one segment: no delimiter but perhaps at its front. */
  predicate OneSegment(h: string) { h != "" && forall i :: 0 < i < |h| ==> !Delimiter(h[i]) }

  lemma {:induction false} CutAtHead(h: string, t: string, i: nat)
    requires OneSegment(h) && (t == "" || Delimiter(t[0])) && 1 <= i <= |h|
    ensures CutFrom(h + t, i) == |h|
    decreases |h| - i
  {
    if i < |h| {
      CutAtHead(h, t, i + 1);
    }
  }

  /** Cut before the second delimiter: there is only one way to do it. */
  lemma HeadUnique(h1: string, t1: string, h2: string, t2: string)
    requires h1 + t1 == h2 + t2 && OneSegment(h1) && OneSegment(h2)
    requires t1 == "" || Delimiter(t1[0])
    requires t2 == "" || Delimiter(t2[0])
    ensures h1 == h2 && t1 == t2
  {
    var s := h1 + t1;
    CutAtHead(h1, t1, 1);
    CutAtHead(h2, t2, 1);
    assert h1 == s[..|h1|] && h2 == s[..|h2|] && t1 == s[|h1|..] && t2 == s[|h2|..];
  }

  lemma SegmentShape(step: Step)
    requires CleanStep(step)
    ensures OneSegment(Segment(step))
  {
  }

  lemma SegmentUnique(a: Step, b: Step)
    requires Segment(a) == Segment(b)
    ensures a == b
  {
    assert Segment(a)[0] == Segment(b)[0];
    if a.Key? {
      assert a.name == Segment(a)[1..] == Segment(b)[1..] == b.name;
    } else {
      var s := Segment(a);
      assert NatText(a.i) == s[1..|s| - 1] == NatText(b.i);
      NatTextInjective(a.i, b.i);
    }
  }

  lemma {:induction false} SegmentsUnique(a: seq<Step>, b: seq<Step>)
    requires CleanAt(a) && CleanAt(b) && Segments(a) == Segments(b)
    ensures a == b
  {
    if a != [] && b != [] {
      SegmentShape(a[0]);
      SegmentShape(b[0]);
      HeadUnique(Segment(a[0]), Segments(a[1..]), Segment(b[0]), Segments(b[1..]));
      SegmentUnique(a[0], b[0]);
      SegmentsUnique(a[1..], b[1..]);
      assert a == [a[0]] + a[1..] && b == [b[0]] + b[1..];
    }
  }

  lemma HeadShape(step: Step)
    requires CleanStep(step)
    ensures OneSegment(StepPath("", step))
    ensures Delimiter(StepPath("", step)[0]) <==> step.Index?
  {
    if step.Index? {
      IndexHead(step);
      SegmentShape(step);
    }
  }

  lemma IndexHead(step: Step)
    requires step.Index?
    ensures StepPath("", step) == Segment(step)
  {
    assert "" + "[" + NatText(step.i) + "]" == "[" + NatText(step.i) + "]";
  }

  lemma HeadStepUnique(a: Step, b: Step)
    requires CleanStep(a) && CleanStep(b) && StepPath("", a) == StepPath("", b)
    ensures a == b
  {
    HeadShape(a);
    HeadShape(b);
    if a.Index? {
      IndexHead(a);
      IndexHead(b);
      SegmentUnique(a, b);
    }
  }

  /** Two clean positions spelled alike are the same position. */
  lemma SpellingUnique(a: seq<Step>, b: seq<Step>)
    requires a != [] && b != [] && CleanAt(a) && CleanAt(b) && Spelled("", a) == Spelled("", b)
    ensures a == b
  {
    var ha, hb := StepPath("", a[0]), StepPath("", b[0]);
    HeadShape(a[0]);
    HeadShape(b[0]);
    SpelledSegments(ha, a[1..]);
    SpelledSegments(hb, b[1..]);
    HeadUnique(ha, Segments(a[1..]), hb, Segments(b[1..]));
    HeadStepUnique(a[0], b[0]);
    SegmentsUnique(a[1..], b[1..]);
    assert a == [a[0]] + a[1..] && b == [b[0]] + b[1..];
  }

  // The gate

  ghost predicate Accepted(v: Json, validated: set<string>, descriptive: set<string>, opaquePaths: set<string>) {
    RequireFieldInventory(v, validated, descriptive, opaquePaths) == Ok(())
  }

  lemma Covers<T>(xs: set<T>, a: set<T>, b: set<T>)
    ensures xs - a - b == {} <==> xs <= a + b
  {
    if xs - a - b == {} {
      forall x | x in xs ensures x in a + b {
        assert x !in xs - a - b;
      }
    }
  }

  /** Which refusal a vector meets, and the very paths it names: the first of the four rules it breaks. */
  lemma RefusalIs(
    v: Json, validated: set<string>, descriptive: set<string>, opaquePaths: set<string>, r: Refusal)
    requires WellFormed(v) && RequireFieldInventory(v, validated, descriptive, opaquePaths) == Err(r)
    ensures r.paths != {}
    ensures forall p :: p in r.paths <==>
      match r
      case DeclaredTwice(_) => p in validated && p in descriptive
      case OpaqueUndeclared(_) => p in opaquePaths && p !in validated && p !in descriptive
      case Undeclared(_) => SpelledIn(v, "", opaquePaths, p) && p !in validated && p !in descriptive
      case Absent(_) => (p in validated || p in descriptive) && !SpelledIn(v, "", opaquePaths, p)
    ensures r.DeclaredTwice? || validated !! descriptive
    ensures r.DeclaredTwice? || r.OpaqueUndeclared? || opaquePaths <= validated + descriptive
    ensures r.Absent? ==> forall p :: SpelledIn(v, "", opaquePaths, p) ==> p in validated || p in descriptive
  {
    forall p ensures p in FieldPaths(v, "", opaquePaths) <==> SpelledIn(v, "", opaquePaths, p) {
      PathsArePositions(v, "", opaquePaths, p);
    }
    Covers(opaquePaths, validated, descriptive);
    var actual := set p | p in FieldPaths(v, "", opaquePaths);
    Covers(actual, validated, descriptive);
  }

  /**
   * A vector is accepted exactly when the two declared sets split between them the spellings of its visible
   * positions, and every opaque path is one of those declared.
   */
  lemma AcceptedIffPartition(v: Json, validated: set<string>, descriptive: set<string>, opaquePaths: set<string>)
    requires WellFormed(v)
    ensures Accepted(v, validated, descriptive, opaquePaths) <==>
      && validated !! descriptive
      && opaquePaths <= validated + descriptive
      && forall p :: p in validated + descriptive <==> SpelledIn(v, "", opaquePaths, p)
  {
    forall p ensures p in FieldPaths(v, "", opaquePaths) <==> SpelledIn(v, "", opaquePaths, p) {
      PathsArePositions(v, "", opaquePaths, p);
    }
    var actual := set p | p in FieldPaths(v, "", opaquePaths);
    Covers(opaquePaths, validated, descriptive);
    Covers(actual, validated, descriptive);
    Covers(validated + descriptive, actual, {});
    assert (validated + descriptive) - actual - {} == (validated + descriptive) - actual;
    assert (forall p :: p in validated + descriptive <==> p in actual) <==>
      actual <= validated + descriptive <= actual;
  }

  ghost predicate SameSpellings(v: Json, w: Json, opaquePaths: set<string>) {
    forall p :: SpelledIn(v, "", opaquePaths, p) <==> SpelledIn(w, "", opaquePaths, p)
  }

  /** With the declarations fixed, an accepted vector admits another exactly when the two spell the same paths. */
  lemma AcceptedAlikeIff(
    v: Json, w: Json, validated: set<string>, descriptive: set<string>, opaquePaths: set<string>)
    requires WellFormed(v) && WellFormed(w) && Accepted(v, validated, descriptive, opaquePaths)
    ensures Accepted(w, validated, descriptive, opaquePaths) <==> SameSpellings(v, w, opaquePaths)
  {
    AcceptedIffPartition(v, validated, descriptive, opaquePaths);
    AcceptedIffPartition(w, validated, descriptive, opaquePaths);
    var declared := validated + descriptive;
    if SameSpellings(v, w, opaquePaths) {
      forall p ensures p in declared <==> SpelledIn(w, "", opaquePaths, p) {
        assert p in declared <==> SpelledIn(v, "", opaquePaths, p);
      }
    }
    if Accepted(w, validated, descriptive, opaquePaths) {
      forall p ensures SpelledIn(v, "", opaquePaths, p) <==> SpelledIn(w, "", opaquePaths, p) {
        assert p in declared <==> SpelledIn(v, "", opaquePaths, p);
      }
    }
  }

  ghost predicate SamePositions(v: Json, w: Json, opaquePaths: set<string>) {
    forall at :: Visible(v, at, "", opaquePaths) <==> Visible(w, at, "", opaquePaths)
  }

  lemma CleanSpellings(v: Json, w: Json, opaquePaths: set<string>, at: seq<Step>)
    requires CleanKeys(v) && CleanKeys(w) && SameSpellings(v, w, opaquePaths) && Visible(v, at, "", opaquePaths)
    ensures Visible(w, at, "", opaquePaths)
  {
    assert Spells(v, at, "", opaquePaths, Spelled("", at));
    assert SpelledIn(v, "", opaquePaths, Spelled("", at));
    var other :| Spells(w, other, "", opaquePaths, Spelled("", at));
    CleanPositions(v, at);
    CleanPositions(w, other);
    SpellingUnique(at, other);
  }

  /** For clean vectors the same paths are the same positions. */
  lemma AcceptedFixesPositions(
    v: Json, w: Json, validated: set<string>, descriptive: set<string>, opaquePaths: set<string>)
    requires WellFormed(v) && WellFormed(w) && CleanKeys(v) && CleanKeys(w)
    requires Accepted(v, validated, descriptive, opaquePaths)
    ensures Accepted(w, validated, descriptive, opaquePaths) <==> SamePositions(v, w, opaquePaths)
  {
    AcceptedAlikeIff(v, w, validated, descriptive, opaquePaths);
    if SameSpellings(v, w, opaquePaths) {
      forall at ensures Visible(v, at, "", opaquePaths) <==> Visible(w, at, "", opaquePaths) {
        if Visible(v, at, "", opaquePaths) { CleanSpellings(v, w, opaquePaths, at); }
        if Visible(w, at, "", opaquePaths) { CleanSpellings(w, v, opaquePaths, at); }
      }
    }
    if SamePositions(v, w, opaquePaths) {
      forall p ensures SpelledIn(v, "", opaquePaths, p) <==> SpelledIn(w, "", opaquePaths, p) {
        assert forall at :: Spells(v, at, "", opaquePaths, p) <==> Spells(w, at, "", opaquePaths, p);
      }
    }
  }

  // Edits of one key

  function Without(ms: seq<Member>, key: string): (r: seq<Member>)
    requires Has(ms, key)
  {
    ms[..IndexOf(ms, key)] + ms[IndexOf(ms, key) + 1..]
  }

  lemma {:induction false} SubDocument(j: Json, at: seq<Step>)
    requires ValueAt(j, at).Some? && WellFormed(j)
    ensures WellFormed(ValueAt(j, at).value)
    decreases |at|
  {
    if at != [] {
      match at[0]
      case Key(name) => SubDocument(Get(j.members, name), at[1..]);
      case Index(i) => SubDocument(j.items[i], at[1..]);
    }
  }

  lemma {:induction false} ValueAtConcat(j: Json, at: seq<Step>, below: seq<Step>)
    ensures ValueAt(j, at + below) == if ValueAt(j, at).None? then None else ValueAt(ValueAt(j, at).value, below)
    decreases |at|
  {
    if at == [] {
      assert at + below == below;
    } else {
      assert (at + below)[1..] == at[1..] + below;
      match at[0]
      case Key(name) =>
        if j.Obj? && Has(j.members, name) { ValueAtConcat(Get(j.members, name), at[1..], below); }
      case Index(i) =>
        if j.Arr? && i < |j.items| { ValueAtConcat(j.items[i], at[1..], below); }
    }
  }

  /** The two dicts agree on every key but `key`, which only the first has. */
  ghost predicate OneKeyLess(full: seq<Member>, less: seq<Member>, key: string) {
    && Has(full, key) && !Has(less, key)
    && forall k :: k != key ==> (Has(less, k) <==> Has(full, k)) && (Has(full, k) ==> Get(less, k) == Get(full, k))
  }

  lemma WithoutShape(ms: seq<Member>, key: string)
    requires Has(ms, key) && WellFormed(Obj(ms))
    ensures WellFormed(Obj(Without(ms, key))) && !Has(Without(ms, key), key)
  {
    var i, rest := IndexOf(ms, key), Without(ms, key);
    assert forall k :: 0 <= k < |rest| ==> rest[k] == ms[if k < i then k else k + 1];
    HasIffMember(rest, key);
  }

  lemma KeptKey(ms: seq<Member>, key: string, k: string)
    requires Has(ms, key) && UniqueKeys(ms) && UniqueKeys(Without(ms, key)) && k != key
    ensures Has(Without(ms, key), k) <==> Has(ms, k)
    ensures Has(ms, k) ==> Get(Without(ms, key), k) == Get(ms, k)
  {
    var i, j, rest := IndexOf(ms, key), IndexOf(ms, k), Without(ms, key);
    if j < |ms| {
      var at := if j < i then j else j - 1;
      assert rest[at] == ms[j];
      GetAt(rest, at);
    } else {
      assert forall m :: 0 <= m < |rest| ==> rest[m] == ms[if m < i then m else m + 1];
    }
  }

  lemma WithoutKey(ms: seq<Member>, key: string)
    requires Has(ms, key) && WellFormed(Obj(ms))
    ensures WellFormed(Obj(Without(ms, key))) && OneKeyLess(ms, Without(ms, key), key)
  {
    WithoutShape(ms, key);
    forall k | k != key
      ensures Has(Without(ms, key), k) <==> Has(ms, k)
      ensures Has(ms, k) ==> Get(Without(ms, key), k) == Get(ms, k)
    {
      KeptKey(ms, key, k);
    }
  }

  lemma WithKey(ms: seq<Member>, member: Member)
    requires !Has(ms, member.key) && WellFormed(Obj(ms)) && WellFormed(member.value)
    ensures WellFormed(Obj(ms + [member])) && OneKeyLess(ms + [member], ms, member.key)
  {
    var more := ms + [member];
    HasIffMember(ms, member.key);
    GetAt(more, |ms|);
    forall k | k != member.key ensures (Has(ms, k) <==> Has(more, k)) && (Has(more, k) ==> Get(ms, k) == Get(more, k)) {
      if Has(ms, k) {
        GetAt(more, IndexOf(ms, k));
      } else {
        HasIffMember(ms, k);
        HasIffMember(more, k);
      }
    }
  }

  /** The part at `at` is the one dict in `full` and the other in `less`; away from it the two read alike. */
  ghost predicate DifferInDict(full: Json, less: Json, at: seq<Step>, ms: seq<Member>, ns: seq<Member>) {
    && ValueAt(full, at) == Some(Obj(ms)) && ValueAt(less, at) == Some(Obj(ns))
    && forall x :: !(at <= x) && !(x <= at) ==> ValueAt(less, x) == ValueAt(full, x)
  }

  lemma PutDiffers(v: Json, at: seq<Step>, ns: seq<Member>)
    requires ValueAt(v, at).Some? && ValueAt(v, at).value.Obj?
    ensures DifferInDict(v, Put(v, at, Obj(ns)), at, ValueAt(v, at).value.members, ns)
    ensures DifferInDict(Put(v, at, Obj(ns)), v, at, ns, ValueAt(v, at).value.members)
  {
    PutReads(v, at, Obj(ns), []);
    assert at + [] == at;
    forall x | !(at <= x) && !(x <= at) ensures ValueAt(Put(v, at, Obj(ns)), x) == ValueAt(v, x) {
      PutElsewhere(v, at, Obj(ns), x);
    }
  }

  lemma FieldAbove(full: Json, less: Json, at: seq<Step>, ms: seq<Member>, ns: seq<Member>, x: seq<Step>)
    requires DifferInDict(full, less, at, ms, ns) && x <= at
    ensures IsField(less, x) <==> IsField(full, x)
  {
    var rest := at[|x|..];
    assert at == x + rest;
    ValueAtConcat(full, x, rest);
    ValueAtConcat(less, x, rest);
  }

  lemma FieldBelow(
    full: Json, less: Json, at: seq<Step>, ms: seq<Member>, ns: seq<Member>, key: string, below: seq<Step>)
    requires DifferInDict(full, less, at, ms, ns) && OneKeyLess(ms, ns, key) && below != []
    ensures IsField(less, at + below) <==> IsField(full, at + below) && below[0] != Key(key)
  {
    ValueAtConcat(full, at, below);
    ValueAtConcat(less, at, below);
    assert (at + below)[|at + below| - 1] == below[|below| - 1];
  }

  /** Off the key that was taken out, a position is a field before exactly when it is one after. */
  lemma FieldsApart(
    full: Json, less: Json, at: seq<Step>, ms: seq<Member>, ns: seq<Member>, key: string, x: seq<Step>)
    requires DifferInDict(full, less, at, ms, ns) && OneKeyLess(ms, ns, key)
    ensures IsField(less, x) <==> IsField(full, x) && !(at + [Key(key)] <= x)
  {
    if x <= at {
      FieldAbove(full, less, at, ms, ns, x);
    } else if at <= x {
      var below := x[|at|..];
      assert x == at + below;
      FieldBelow(full, less, at, ms, ns, key, below);
      assert at + [Key(key)] <= x <==> below[0] == Key(key) by {
        assert x[..|at|] == at && x[|at|] == below[0];
      }
    }
  }

  lemma VisibleApart(
    full: Json, less: Json, at: seq<Step>, ms: seq<Member>, ns: seq<Member>, key: string, opaquePaths: set<string>)
    requires DifferInDict(full, less, at, ms, ns) && OneKeyLess(ms, ns, key)
    ensures VisibleBut(full, less, at + [Key(key)], opaquePaths)
  {
    forall x ensures Visible(less, x, "", opaquePaths) <==>
      Visible(full, x, "", opaquePaths) && !(at + [Key(key)] <= x)
    {
      FieldsApart(full, less, at, ms, ns, key, x);
    }
  }

  /** The positions seen in `less` are those seen in `full` that are not at or below `cut`. */
  ghost predicate VisibleBut(full: Json, less: Json, cut: seq<Step>, opaquePaths: set<string>) {
    forall x :: Visible(less, x, "", opaquePaths) <==> Visible(full, x, "", opaquePaths) && !(cut <= x)
  }

  /** A position that is not at or below `cut` has the spelling `p`. */
  ghost predicate SpelledOff(v: Json, cut: seq<Step>, opaquePaths: set<string>, p: string) {
    exists other :: Spells(v, other, "", opaquePaths, p) && !(cut <= other)
  }

  /** Every visible position at or below `cut` shares its spelling with one that is not. */
  ghost predicate Shadowed(v: Json, cut: seq<Step>, opaquePaths: set<string>) {
    forall under :: Visible(v, under, "", opaquePaths) && cut <= under ==>
      SpelledOff(v, cut, opaquePaths, Spelled("", under))
  }

  lemma SameSpellingsIffShadowed(full: Json, less: Json, cut: seq<Step>, opaquePaths: set<string>)
    requires VisibleBut(full, less, cut, opaquePaths)
    ensures SameSpellings(full, less, opaquePaths) <==> Shadowed(full, cut, opaquePaths)
  {
    if SameSpellings(full, less, opaquePaths) {
      forall under | Visible(full, under, "", opaquePaths) && cut <= under
        ensures SpelledOff(full, cut, opaquePaths, Spelled("", under))
      {
        var p := Spelled("", under);
        assert Spells(full, under, "", opaquePaths, p);
        assert SpelledIn(full, "", opaquePaths, p);
        var other :| Spells(less, other, "", opaquePaths, p);
        assert Spells(full, other, "", opaquePaths, p);
      }
    }
    if Shadowed(full, cut, opaquePaths) {
      forall p ensures SpelledIn(full, "", opaquePaths, p) <==> SpelledIn(less, "", opaquePaths, p) {
        if at :| Spells(less, at, "", opaquePaths, p) {
          assert Spells(full, at, "", opaquePaths, p);
        }
        if at :| Spells(full, at, "", opaquePaths, p) {
          var off :| Spells(full, off, "", opaquePaths, p) && !(cut <= off);
          assert Spells(less, off, "", opaquePaths, p);
        }
      }
    }
  }

  /**
   * Take a key out of an accepted vector: the gate passes the result exactly when each path lost is also the
   * spelling of a position that stays. A key inside an opaque subtree loses no path.
   */
  lemma RemovedKeyAcceptedIff(
    v: Json, at: seq<Step>, key: string, validated: set<string>, descriptive: set<string>, opaquePaths: set<string>)
    requires WellFormed(v) && Accepted(v, validated, descriptive, opaquePaths)
    requires ValueAt(v, at).Some? && ValueAt(v, at).value.Obj? && Has(ValueAt(v, at).value.members, key)
    ensures Accepted(Put(v, at, Obj(Without(ValueAt(v, at).value.members, key))), validated, descriptive, opaquePaths)
      <==> Shadowed(v, at + [Key(key)], opaquePaths)
  {
    var ms := ValueAt(v, at).value.members;
    var rest := Without(ms, key);
    var w := Put(v, at, Obj(rest));
    SubDocument(v, at);
    WithoutKey(ms, key);
    PutWellFormed(v, at, Obj(rest));
    PutDiffers(v, at, rest);
    VisibleApart(v, w, at, ms, rest, key, opaquePaths);
    SameSpellingsIffShadowed(v, w, at + [Key(key)], opaquePaths);
    AcceptedAlikeIff(v, w, validated, descriptive, opaquePaths);
  }

  /** Add a key to an accepted vector: the gate passes the result exactly when it brings no path not there before. */
  lemma AddedKeyAcceptedIff(
    v: Json, at: seq<Step>, member: Member, validated: set<string>, descriptive: set<string>, opaquePaths: set<string>)
    requires WellFormed(v) && WellFormed(member.value) && Accepted(v, validated, descriptive, opaquePaths)
    requires ValueAt(v, at).Some? && ValueAt(v, at).value.Obj? && !Has(ValueAt(v, at).value.members, member.key)
    ensures var w := Put(v, at, Obj(ValueAt(v, at).value.members + [member]));
      Accepted(w, validated, descriptive, opaquePaths) <==> Shadowed(w, at + [Key(member.key)], opaquePaths)
  {
    var ms := ValueAt(v, at).value.members;
    var more := ms + [member];
    var w := Put(v, at, Obj(more));
    SubDocument(v, at);
    WithKey(ms, member);
    PutWellFormed(v, at, Obj(more));
    PutDiffers(v, at, more);
    VisibleApart(w, v, at, more, ms, member.key, opaquePaths);
    SameSpellingsIffShadowed(w, v, at + [Key(member.key)], opaquePaths);
    AcceptedAlikeIff(v, w, validated, descriptive, opaquePaths);
  }

  /** Nothing shadows a visible position among clean ones. */
  lemma CleanNotShadowed(v: Json, cut: seq<Step>, opaquePaths: set<string>)
    requires Visible(v, cut, "", opaquePaths) && CleanAt(cut)
    requires forall x :: Visible(v, x, "", opaquePaths) && !(cut <= x) ==> CleanAt(x)
    ensures !Shadowed(v, cut, opaquePaths)
  {
    if SpelledOff(v, cut, opaquePaths, Spelled("", cut)) {
      var other :| Spells(v, other, "", opaquePaths, Spelled("", cut)) && !(cut <= other);
      SpellingUnique(cut, other);
    }
  }

  /** Take any key that is not inside an opaque subtree out of an accepted clean vector: the result is refused. */
  lemma RemovedKeyRefused(
    v: Json, at: seq<Step>, key: string, validated: set<string>, descriptive: set<string>, opaquePaths: set<string>)
    requires WellFormed(v) && CleanKeys(v) && Accepted(v, validated, descriptive, opaquePaths)
    requires Visible(v, at + [Key(key)], "", opaquePaths)
    ensures ValueAt(v, at).Some? && ValueAt(v, at).value.Obj? && Has(ValueAt(v, at).value.members, key)
    ensures !Accepted(Put(v, at, Obj(Without(ValueAt(v, at).value.members, key))), validated, descriptive, opaquePaths)
  {
    ValueAtConcat(v, at, [Key(key)]);
    RemovedKeyAcceptedIff(v, at, key, validated, descriptive, opaquePaths);
    forall x | Visible(v, x, "", opaquePaths) ensures CleanAt(x) {
      CleanPositions(v, x);
    }
    CleanNotShadowed(v, at + [Key(key)], opaquePaths);
  }

  /** Put a new clean key anywhere outside the opaque subtrees of an accepted clean vector: the result is refused. */
  lemma AddedKeyRefused(
    v: Json, at: seq<Step>, member: Member, validated: set<string>, descriptive: set<string>, opaquePaths: set<string>)
    requires WellFormed(v) && CleanKeys(v) && Accepted(v, validated, descriptive, opaquePaths)
    requires ValueAt(v, at).Some? && ValueAt(v, at).value.Obj? && !Has(ValueAt(v, at).value.members, member.key)
    requires CleanKey(member.key) && WellFormed(member.value)
    requires forall k :: 1 <= k <= |at| ==> Spelled("", at[..k]) !in opaquePaths
    ensures !Accepted(Put(v, at, Obj(ValueAt(v, at).value.members + [member])), validated, descriptive, opaquePaths)
  {
    var ms := ValueAt(v, at).value.members;
    var more, cut := ms + [member], at + [Key(member.key)];
    var w := Put(v, at, Obj(more));
    AddedKeyAcceptedIff(v, at, member, validated, descriptive, opaquePaths);
    SubDocument(v, at);
    WithKey(ms, member);
    PutDiffers(v, at, more);
    VisibleApart(w, v, at, more, ms, member.key, opaquePaths);
    NewKeyVisible(w, at, member.key, opaquePaths);
    CleanPositions(v, at);
    forall x | Visible(w, x, "", opaquePaths) && !(cut <= x) ensures CleanAt(x) {
      assert Visible(v, x, "", opaquePaths);
      CleanPositions(v, x);
    }
    CleanNotShadowed(w, cut, opaquePaths);
  }

  lemma NewKeyVisible(w: Json, at: seq<Step>, key: string, opaquePaths: set<string>)
    requires ValueAt(w, at).Some? && ValueAt(w, at).value.Obj? && Has(ValueAt(w, at).value.members, key)
    requires forall k :: 1 <= k <= |at| ==> Spelled("", at[..k]) !in opaquePaths
    ensures Visible(w, at + [Key(key)], "", opaquePaths)
  {
    var cut := at + [Key(key)];
    ValueAtConcat(w, at, [Key(key)]);
    assert [Key(key)][1..] == [];
    forall k | 1 <= k < |cut| ensures Spelled("", cut[..k]) !in opaquePaths {
      assert cut[..k] == at[..k];
    }
  }

  /** Clean keys are needed: any nested field can be shadowed by a dotted key, which then comes and goes unnoticed. */
  lemma DottedKeyHides(k: string, l: string, inner: Json, outer: Json)
    requires k != "" && !Container(inner) && !Container(outer)
    ensures var nested := Member(k, Obj([Member(l, inner)]));
      var declared := {k, k + "." + l};
      && Accepted(Obj([nested, Member(k + "." + l, outer)]), declared, {}, {})
      && Accepted(Obj([nested]), declared, {}, {})
  {
    var nested, dotted := Member(k, Obj([Member(l, inner)])), k + "." + l;
    var two, one := [nested, Member(dotted, outer)], [nested];
    assert MemberPaths([Member(l, inner)], 1, k, {}) == [];
    assert MemberPaths([Member(l, inner)], 0, k, {}) == [dotted];
    assert FieldPaths(nested.value, k, {}) == [dotted];
    assert MemberPaths(one, 1, "", {}) == [];
    assert MemberPaths(one, 0, "", {}) == [k] + [dotted] + [];
    assert FieldPaths(Obj(one), "", {}) == [k, dotted];
    assert MemberPaths(two, 2, "", {}) == [];
    assert MemberPaths(two, 1, "", {}) == [dotted];
    assert MemberPaths(two, 0, "", {}) == [k] + [dotted] + [dotted];
  }
}
