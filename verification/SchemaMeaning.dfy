/**
 * What an admitted schema means, said without following the interpreter, and the proof that the interpreter
 * decides it: it passes exactly the satisfying values, and otherwise reports the first broken clause.
 */
module SchemaMeaning {
  import opened Wrappers
  import opened Json
  import opened Schema
  import opened Arguments
  import Text

  predicate AtLeast(n: int, bound: Option<int>) { bound.Some? ==> n >= bound.value }

  predicate AtMost(n: int, bound: Option<int>) { bound.Some? ==> n <= bound.value }

  /** The value meets one demand of the node. A demand that needs another `type` is met by every value. */
  ghost predicate Holds(env: Env, s: Schema, v: Json, c: Clause)
    requires s.Node?
  {
    var kw := s.kw;
    match c
    case TypeClause => kw.expected.Typed? ==> MatchesJsonType(v, kw.expected.t)
    case ConstClause => kw.constant.Some? ==> PyEq(v, kw.constant.value)
    case EnumClause =>
      kw.enum.Some? ==> kw.enum.value.Arr? && exists x :: x in kw.enum.value.items && PyEq(v, x)
    case RequiredClause =>
      kw.expected == Typed(TObject) && v.Obj? && IsGiven(kw.required) && kw.required.value.Arr? ==>
        forall name :: Str(name) in kw.required.value.items ==> Has(v.members, name)
    case ExtraClause =>
      kw.expected == Typed(TObject) && v.Obj? && kw.additional == Some(Bool(false)) ==>
        forall name :: Has(v.members, name) ==> Declares(s.properties, name)
    case MinItemsClause => kw.expected == Typed(TArray) && v.Arr? ==> AtLeast(|v.items|, IntBound(kw.minItems))
    case MaxItemsClause => kw.expected == Typed(TArray) && v.Arr? ==> AtMost(|v.items|, IntBound(kw.maxItems))
    case MinLengthClause => kw.expected == Typed(TString) && v.Str? ==> AtLeast(|v.s|, IntBound(kw.minLength))
    case MaxLengthClause => kw.expected == Typed(TString) && v.Str? ==> AtMost(|v.s|, IntBound(kw.maxLength))
    case PatternClause =>
      kw.expected == Typed(TString) && v.Str? && kw.pattern.Some? && kw.pattern.value.Str? ==>
        env.search(kw.pattern.value.s, v.s)
    case MinimumClause =>
      Numeric(s, v) && NumberBound(kw.minimum).Some? ==> NumberOf(v).value >= NumberBound(kw.minimum).value
    case MaximumClause =>
      Numeric(s, v) && NumberBound(kw.maximum).Some? ==> NumberOf(v).value <= NumberBound(kw.maximum).value
    case ExclusiveMinimumClause =>
      Numeric(s, v) && NumberBound(kw.exclusiveMinimum).Some? ==>
        NumberOf(v).value > NumberBound(kw.exclusiveMinimum).value
    case ExclusiveMaximumClause =>
      Numeric(s, v) && NumberBound(kw.exclusiveMaximum).Some? ==>
        NumberOf(v).value < NumberBound(kw.exclusiveMaximum).value
  }

  predicate Numeric(s: Schema, v: Json)
    requires s.Node?
  {
    s.kw.expected in {Typed(TInteger), Typed(TNumber)} && (v.Int? || v.Float?)
  }

  /** The value fits the schema: every demand of every node met by the part of the value it speaks of. */
  ghost predicate Satisfies(env: Env, s: Schema, v: Json)
    decreases s
  {
    && s.Node?
    && (forall c :: Holds(env, s, v, c))
    && (s.properties.Dict? && v.Obj? ==>
          forall i :: 0 <= i < |s.properties.entries| && Has(v.members, s.properties.entries[i].name) ==>
            Satisfies(env, s.properties.entries[i].schema, Get(v.members, s.properties.entries[i].name)))
    && (s.items.Each? && v.Arr? ==>
          forall i :: 0 <= i < |v.items| ==> Satisfies(env, s.items.schema, v.items[i]))
  }

  /** Where checking stops: a path into the value, the sub-schema and sub-value there, the clause that breaks. */
  datatype Stop = Stop(at: seq<Step>, node: Schema, value: Json, clause: Clause)

  function Under(step: Step, stop: Stop): (r: Stop) { stop.(at := [step] + stop.at) }

  ghost predicate FirstBroken(env: Env, s: Schema, v: Json, c: Clause)
    requires s.Node?
  {
    !Holds(env, s, v, c) && forall d :: Rank(d) < Rank(c) ==> Holds(env, s, v, d)
  }

  /**
   * The first broken clause of a document: at this node the earliest broken one; below it, in the first
   * property (in declaration order) or item whose part of the value does not fit, this node being clear.
   */
  ghost predicate FirstStop(env: Env, s: Schema, v: Json, stop: Stop)
    decreases stop.at
  {
    s.Node? &&
    if stop.at == [] then
      stop.node == s && stop.value == v && FirstBroken(env, s, v, stop.clause)
    else
      (forall c :: Holds(env, s, v, c)) &&
      match stop.at[0]
      case Key(name) =>
        s.properties.Dict? && v.Obj? && Has(v.members, name) &&
        exists i :: FirstStopInProperty(env, s.properties.entries, v.members, i, stop)
      case Index(k) =>
        && s.items.Each? && v.Arr? && k < |v.items|
        && FirstStop(env, s.items.schema, v.items[k], stop.(at := stop.at[1..]))
        && forall j :: 0 <= j < k ==> Satisfies(env, s.items.schema, v.items[j])
  }

  ghost predicate FitsProperty(env: Env, p: Property, ms: seq<Member>) {
    Has(ms, p.name) ==> Satisfies(env, p.schema, Get(ms, p.name))
  }

  ghost predicate FitBefore(env: Env, entries: seq<Property>, i: nat, ms: seq<Member>)
    requires i <= |entries|
  {
    forall k :: 0 <= k < i ==> FitsProperty(env, entries[k], ms)
  }

  ghost predicate FirstStopInProperty(env: Env, entries: seq<Property>, ms: seq<Member>, i: int, stop: Stop)
    requires stop.at != []
    decreases stop.at, 0
  {
    && 0 <= i < |entries|
    && stop.at[0] == Key(entries[i].name)
    && Has(ms, entries[i].name)
    && FirstStop(env, entries[i].schema, Get(ms, entries[i].name), stop.(at := stop.at[1..]))
    && forall j :: 0 <= j < i ==> FitsProperty(env, entries[j], ms)
  }

  /** The path as the message spells it. */
  function Spell(path: string, at: seq<Step>): (s: string)
    decreases |at|
  {
    if at == [] then path
    else match at[0]
      case Key(name) => Spell(path + "." + name, at[1..])
      case Index(i) => Spell(path + "[" + Text.NatText(i) + "]", at[1..])
  }

  predicate NullEnum(s: Schema) { s.Node? && s.kw.enum == Some(Null) }

  /** What the caller sees of a stop: an error naming the path, or, at an explicit `enum: null`, an exception. */
  function Reported(env: Env, stop: Stop, path: string): (r: Outcome) {
    if stop.clause == EnumClause && NullEnum(stop.node) then Raised
    else Fault(Spell(path, stop.at) + Label(stop.clause) + env.detail(stop.node, stop.value, stop.clause),
               stop.at, stop.clause)
  }

  // No error string is empty

  lemma {:induction false} ErrorTextNotEmpty(env: Env, s: Schema, v: Json, path: string)
    ensures Validate(env, s, v, path).Fault? ==> Validate(env, s, v, path).text != ""
    decreases s, 0
  {
    if s.Node? && LocalCheck(env, s, v) == Clear {
      if s.kw.expected == Typed(TObject) && s.properties.Dict? {
        PropertyTextNotEmpty(env, s.properties.entries, 0, v.members, path);
      } else if s.kw.expected == Typed(TArray) && s.items.Each? {
        ItemTextNotEmpty(env, s.items.schema, v.items, 0, path);
      }
    }
  }

  lemma {:induction false} PropertyTextNotEmpty(env: Env, entries: seq<Property>, i: nat, ms: seq<Member>, path: string)
    requires i <= |entries|
    ensures var r := ValidateProperties(env, entries, i, ms, path); r.Fault? ==> r.text != ""
    decreases entries, |entries| - i
  {
    if i < |entries| {
      PropertyTextNotEmpty(env, entries, i + 1, ms, path);
    }
  }

  lemma {:induction false} ItemTextNotEmpty(env: Env, s: Schema, items: seq<Json>, i: nat, path: string)
    requires i <= |items|
    ensures var r := ValidateItems(env, s, items, i, path); r.Fault? ==> r.text != ""
    decreases s, 1, |items| - i
  {
    if i < |items| {
      ItemTextNotEmpty(env, s, items, i + 1, path);
    }
  }

  // One node

  /** On an admitted node the local checks are the clauses, tried in order; only `enum: null` raises. */
  lemma LocalMeaning(env: Env, s: Schema, v: Json)
    requires NodeShape(s)
    ensures LocalCheck(env, s, v) == Clear <==> forall c :: Holds(env, s, v, c)
    ensures LocalCheck(env, s, v).Broken? ==>
      FirstBroken(env, s, v, LocalCheck(env, s, v).clause) && !(LocalCheck(env, s, v).clause.EnumClause? && NullEnum(s))
    ensures LocalCheck(env, s, v) == Raises ==> FirstBroken(env, s, v, EnumClause) && NullEnum(s)
  {
    var l := LocalCheck(env, s, v);
    if l == Clear {
      ClearMeaning(env, s, v);
    } else {
      BrokenMeaning(env, s, v);
      assert !Holds(env, s, v, if l.Broken? then l.clause else EnumClause);
    }
  }

  lemma ClearMeaning(env: Env, s: Schema, v: Json)
    requires NodeShape(s) && LocalCheck(env, s, v) == Clear
    ensures forall c :: Holds(env, s, v, c)
  {
    if s.kw.expected == Typed(TObject) {
      RequiredMeaning(env, s, v);
      ExtraMeaning(env, s, v);
    }
  }

  /** A broken local check is the first broken clause, whatever the type: the type, constant and enum come first. */
  lemma BrokenMeaning(env: Env, s: Schema, v: Json)
    requires NodeShape(s) && LocalCheck(env, s, v) != Clear
    ensures var l := LocalCheck(env, s, v);
      && (l.Broken? ==> FirstBroken(env, s, v, l.clause) && !(l.clause.EnumClause? && NullEnum(s)))
      && (l == Raises ==> FirstBroken(env, s, v, EnumClause) && NullEnum(s))
  {
    if !Holds(env, s, v, TypeClause) || !Holds(env, s, v, ConstClause) || !Holds(env, s, v, EnumClause) {
      BrokenValue(env, s, v);
    } else {
      match s.kw.expected
      case Typed(TObject) => BrokenObject(env, s, v);
      case Typed(TArray) => BrokenSize(env, s, v);
      case Typed(TString) => BrokenString(env, s, v);
      case _ => BrokenNumber(env, s, v);
    }
  }

  /** The clauses every type has are met. */
  ghost predicate ValueClear(env: Env, s: Schema, v: Json)
    requires s.Node?
  {
    Holds(env, s, v, TypeClause) && Holds(env, s, v, ConstClause) && Holds(env, s, v, EnumClause)
  }

  lemma BrokenValue(env: Env, s: Schema, v: Json)
    requires NodeShape(s) && !ValueClear(env, s, v)
    ensures var l := LocalCheck(env, s, v);
      && (l.Broken? ==> FirstBroken(env, s, v, l.clause) && !(l.clause.EnumClause? && NullEnum(s)))
      && (l == Raises ==> FirstBroken(env, s, v, EnumClause) && NullEnum(s))
  {
  }

  lemma BrokenObject(env: Env, s: Schema, v: Json)
    requires NodeShape(s) && ValueClear(env, s, v) && LocalCheck(env, s, v) != Clear
    requires s.kw.expected == Typed(TObject)
    ensures var l := LocalCheck(env, s, v);
      l.Broken? && FirstBroken(env, s, v, l.clause) && l.clause != EnumClause
  {
    RequiredMeaning(env, s, v);
    ExtraMeaning(env, s, v);
  }

  lemma BrokenSize(env: Env, s: Schema, v: Json)
    requires NodeShape(s) && ValueClear(env, s, v) && LocalCheck(env, s, v) != Clear
    requires s.kw.expected == Typed(TArray)
    ensures var l := LocalCheck(env, s, v);
      l.Broken? && FirstBroken(env, s, v, l.clause) && l.clause != EnumClause
  {
  }

  lemma BrokenString(env: Env, s: Schema, v: Json)
    requires NodeShape(s) && ValueClear(env, s, v) && LocalCheck(env, s, v) != Clear
    requires s.kw.expected == Typed(TString)
    ensures var l := LocalCheck(env, s, v);
      l.Broken? && FirstBroken(env, s, v, l.clause) && l.clause != EnumClause
  {
  }

  lemma BrokenNumber(env: Env, s: Schema, v: Json)
    requires NodeShape(s) && ValueClear(env, s, v) && LocalCheck(env, s, v) != Clear
    requires s.kw.expected !in {Typed(TObject), Typed(TArray), Typed(TString)}
    ensures var l := LocalCheck(env, s, v);
      l.Broken? && FirstBroken(env, s, v, l.clause) && l.clause != EnumClause
  {
  }

  lemma RequiredMeaning(env: Env, s: Schema, v: Json)
    requires NodeShape(s) && s.kw.expected == Typed(TObject) && v.Obj?
    ensures RequiredLocal(s.kw.required, v.members) ==
      if Holds(env, s, v, RequiredClause) then Clear else Broken(RequiredClause)
  {
    if IsGiven(s.kw.required) {
      var names := s.kw.required.value.items;
      if Holds(env, s, v, RequiredClause) {
        forall i | 0 <= i < |names| ensures Has(v.members, names[i].s) {
          assert Str(names[i].s) in names;
        }
      }
    }
  }

  lemma ExtraMeaning(env: Env, s: Schema, v: Json)
    requires NodeShape(s) && s.kw.expected == Typed(TObject) && v.Obj?
    ensures ExtraLocal(s, v.members) == if Holds(env, s, v, ExtraClause) then Clear else Broken(ExtraClause)
  {
    if Holds(env, s, v, ExtraClause) && s.kw.additional == Some(Bool(false)) {
      forall i | 0 <= i < |v.members| ensures Declares(s.properties, v.members[i].key) {
        HasIffMember(v.members, v.members[i].key);
      }
    }
    if !Holds(env, s, v, ExtraClause) {
      var name :| Has(v.members, name) && !Declares(s.properties, name);
      HasIffMember(v.members, name);
    }
  }

  // The whole tree

  /** When the interpreter does not pass, it stopped at the first broken clause and reports that one. */
  lemma {:induction false} StopOf(env: Env, s: Schema, v: Json, path: string, depth: nat) returns (stop: Stop)
    requires Admissible(s, depth)
    ensures Validate(env, s, v, path) == Passed ==> Satisfies(env, s, v)
    ensures Validate(env, s, v, path) != Passed ==>
      FirstStop(env, s, v, stop) && Validate(env, s, v, path) == Reported(env, stop, path)
    decreases s, 0
  {
    LocalMeaning(env, s, v);
    var l := LocalCheck(env, s, v);
    stop := Stop([], s, v, if l.Broken? then l.clause else EnumClause);
    if l == Clear {
      assert Holds(env, s, v, TypeClause);
      if s.properties.Dict? {
        stop := StopOfProperties(env, s.properties.entries, 0, v.members, path, depth + 1);
      } else if s.items.Each? {
        stop := StopOfItems(env, s.items.schema, v.items, 0, path, depth + 1);
      }
    }
  }

  lemma StopUnderProperty(env: Env, entries: seq<Property>, i: nat, ms: seq<Member>, below: Stop)
    requires i < |entries| && Has(ms, entries[i].name)
    requires FirstStop(env, entries[i].schema, Get(ms, entries[i].name), below)
    requires FitBefore(env, entries, i, ms)
    ensures FirstStopInProperty(env, entries, ms, i, Under(Key(entries[i].name), below))
  {
    var stop := Under(Key(entries[i].name), below);
    assert stop.(at := stop.at[1..]) == below;
  }

  lemma {:induction false} StopOfProperties(
    env: Env, entries: seq<Property>, i: nat, ms: seq<Member>, path: string, depth: nat) returns (stop: Stop)
    requires i <= |entries|
    requires forall k :: 0 <= k < |entries| ==> Admissible(entries[k].schema, depth)
    requires FitBefore(env, entries, i, ms)
    ensures var r := ValidateProperties(env, entries, i, ms, path);
      && (r == Passed ==> FitBefore(env, entries, |entries|, ms))
      && (r != Passed ==>
            && stop.at != []
            && (exists k :: FirstStopInProperty(env, entries, ms, k, stop))
            && r == Reported(env, stop, path))
    decreases entries, |entries| - i
  {
    stop := Stop([], NotASchema(Null), Null, TypeClause);
    if i < |entries| {
      var name := entries[i].name;
      if Has(ms, name) {
        var below := StopOf(env, entries[i].schema, Get(ms, name), PropertyPath(path, name), depth);
        ErrorTextNotEmpty(env, entries[i].schema, Get(ms, name), PropertyPath(path, name));
        if Validate(env, entries[i].schema, Get(ms, name), PropertyPath(path, name)) != Passed {
          stop := Under(Key(name), below);
          StopUnderProperty(env, entries, i, ms, below);
          return;
        }
      }
      assert FitsProperty(env, entries[i], ms);
      stop := StopOfProperties(env, entries, i + 1, ms, path, depth);
    }
  }

  ghost predicate ItemsFitBefore(env: Env, s: Schema, items: seq<Json>, i: nat)
    requires i <= |items|
  {
    forall k :: 0 <= k < i ==> Satisfies(env, s, items[k])
  }

  lemma {:induction false} StopOfItems(env: Env, s: Schema, items: seq<Json>, i: nat, path: string, depth: nat)
    returns (stop: Stop)
    requires i <= |items| && Admissible(s, depth)
    requires ItemsFitBefore(env, s, items, i)
    ensures var r := ValidateItems(env, s, items, i, path);
      && (r == Passed ==> ItemsFitBefore(env, s, items, |items|))
      && (r != Passed ==>
            && stop.at != [] && stop.at[0].Index? && stop.at[0].i < |items|
            && FirstStop(env, s, items[stop.at[0].i], stop.(at := stop.at[1..]))
            && ItemsFitBefore(env, s, items, stop.at[0].i)
            && r == Reported(env, stop, path))
    decreases s, 1, |items| - i
  {
    stop := Stop([], NotASchema(Null), Null, TypeClause);
    if i < |items| {
      var below := StopOf(env, s, items[i], ItemPath(path, i), depth);
      ErrorTextNotEmpty(env, s, items[i], ItemPath(path, i));
      if Validate(env, s, items[i], ItemPath(path, i)) != Passed {
        stop := Under(Index(i), below);
        assert stop.(at := stop.at[1..]) == below;
      } else {
        stop := StopOfItems(env, s, items, i + 1, path, depth);
      }
    }
  }

  function Tail(stop: Stop): (r: Stop)
    requires stop.at != []
  {
    stop.(at := stop.at[1..])
  }

  lemma {:induction false} StopMeansUnfit(env: Env, s: Schema, v: Json, stop: Stop)
    requires FirstStop(env, s, v, stop)
    ensures !Satisfies(env, s, v)
    decreases stop.at
  {
    if stop.at != [] {
      match stop.at[0]
      case Key(name) =>
        var entries := s.properties.entries;
        var i :| FirstStopInProperty(env, entries, v.members, i, stop);
        StopMeansUnfit(env, entries[i].schema, Get(v.members, entries[i].name), Tail(stop));
      case Index(k) =>
        StopMeansUnfit(env, s.items.schema, v.items[k], Tail(stop));
    }
  }

  lemma RankInjective(c: Clause, d: Clause)
    ensures Rank(c) == Rank(d) <==> c == d
  {
  }

  /** There is at most one first stop. */
  lemma {:induction false} StopUnique(env: Env, s: Schema, v: Json, a: Stop, b: Stop)
    requires FirstStop(env, s, v, a) && FirstStop(env, s, v, b)
    ensures a == b
    decreases a.at
  {
    if a.at == [] || b.at == [] {
      RankInjective(a.clause, b.clause);
      assert a.at == b.at == [];
    } else {
      if a.at[0].Key? {
        var entries, ms := s.properties.entries, v.members;
        assert Has(ms, a.at[0].name);
        var i :| FirstStopInProperty(env, entries, ms, i, a);
        assert b.at[0].Key? by { KindOfStep(env, s, v, a, b); }
        var j :| FirstStopInProperty(env, entries, ms, j, b);
        StopMeansUnfit(env, entries[i].schema, Get(ms, entries[i].name), Tail(a));
        StopMeansUnfit(env, entries[j].schema, Get(ms, entries[j].name), Tail(b));
        assert !FitsProperty(env, entries[i], ms) && !FitsProperty(env, entries[j], ms);
        assert i == j;
        StopUnique(env, entries[i].schema, Get(ms, entries[i].name), Tail(a), Tail(b));
      } else {
        assert b.at[0].Index? by { KindOfStep(env, s, v, a, b); }
        var i, j := a.at[0].i, b.at[0].i;
        StopMeansUnfit(env, s.items.schema, v.items[i], Tail(a));
        StopMeansUnfit(env, s.items.schema, v.items[j], Tail(b));
        assert i == j;
        StopUnique(env, s.items.schema, v.items[i], Tail(a), Tail(b));
      }
      assert [a.at[0]] + a.at[1..] == a.at && [b.at[0]] + b.at[1..] == b.at;
    }
  }

  /** A value is a dict or a list, never both. */
  lemma KindOfStep(env: Env, s: Schema, v: Json, a: Stop, b: Stop)
    requires FirstStop(env, s, v, a) && FirstStop(env, s, v, b) && a.at != [] && b.at != []
    ensures a.at[0].Key? <==> b.at[0].Key?
  {
  }

  /**
   * The interpreter on an admitted schema, for every value: it passes exactly the values that fit; a value
   * that does not fit has one first broken clause, and the outcome is that clause's report.
   */
  lemma ValidateDecides(env: Env, s: Schema, v: Json, path: string, depth: nat)
    requires Admit(s, depth) == Admitted
    ensures Validate(env, s, v, path) == Passed <==> Satisfies(env, s, v)
    ensures !Satisfies(env, s, v) <==> exists stop :: FirstStop(env, s, v, stop)
    ensures forall stop :: FirstStop(env, s, v, stop) ==> Validate(env, s, v, path) == Reported(env, stop, path)
  {
    AdmitIffAdmissible(s, depth);
    var found := StopOf(env, s, v, path, depth);
    forall stop | FirstStop(env, s, v, stop) ensures Validate(env, s, v, path) == Reported(env, stop, path) {
      StopMeansUnfit(env, s, v, stop);
      StopUnique(env, s, v, stop, found);
    }
    if Satisfies(env, s, v) {
      forall stop ensures !FirstStop(env, s, v, stop) {
        if FirstStop(env, s, v, stop) {
          StopMeansUnfit(env, s, v, stop);
        }
      }
    } else {
      assert FirstStop(env, s, v, found);
    }
  }

  // Totality

  /** Every `enum` that is present is a list. Admission lets an explicit null through. */
  predicate EnumsListed(s: Schema) {
    s.Node? ==>
      && !NullEnum(s)
      && (s.properties.Dict? ==>
            forall i :: 0 <= i < |s.properties.entries| ==> EnumsListed(s.properties.entries[i].schema))
      && (s.items.Each? ==> EnumsListed(s.items.schema))
  }

  lemma {:induction false} StopNodeListed(env: Env, s: Schema, v: Json, stop: Stop)
    requires FirstStop(env, s, v, stop) && EnumsListed(s)
    ensures !NullEnum(stop.node)
    decreases stop.at
  {
    if stop.at != [] {
      match stop.at[0]
      case Key(name) =>
        var i :| FirstStopInProperty(env, s.properties.entries, v.members, i, stop);
        StopNodeListed(env, s.properties.entries[i].schema, Get(v.members, s.properties.entries[i].name), Tail(stop));
      case Index(k) =>
        StopNodeListed(env, s.items.schema, v.items[k], Tail(stop));
    }
  }

  /** Admission makes the interpreter total, given that every present `enum` is a list. */
  lemma AdmittedNeverRaises(env: Env, s: Schema, v: Json, path: string)
    requires Admit(s, 0) == Admitted && EnumsListed(s)
    ensures Validate(env, s, v, path) != Raised
  {
    ValidateDecides(env, s, v, path, 0);
    if !Satisfies(env, s, v) {
      var stop :| FirstStop(env, s, v, stop);
      StopNodeListed(env, s, v, stop);
    }
  }

  /** The hypothesis is needed: `{"enum": null}` is admitted, and raises on every value whatsoever. */
  lemma NullEnumIsAdmittedAndRaises(env: Env, v: Json, path: string)
    ensures var s := Read(Obj([Member("enum", Null)]));
      Admit(s, 0) == Admitted && Validate(env, s, v, path) == Raised
  {
    var ms := [Member("enum", Null)];
    assert ms[0].key == "enum";
    assert Has(ms, "enum") && Get(ms, "enum") == Null;
    assert "enum" in SCHEMA_KEYS;
    forall key | key != "enum" ensures !Has(ms, key) {
      HasIffMember(ms, key);
    }
    assert "type" != "enum" && "items" != "enum" && "const" != "enum" && "required" != "enum";
    assert |"properties"| != |"enum"| && |"description"| != |"enum"| && |"additionalProperties"| != |"enum"|;
    assert Read(Obj(ms)).kw.unknown == {};
  }

  // The path of an error

  function PropertyIndex(entries: seq<Property>, name: string): (i: nat)
    ensures i <= |entries|
    ensures i < |entries| ==> entries[i].name == name
    ensures forall j :: 0 <= j < i ==> entries[j].name != name
  {
    if entries == [] || entries[0].name == name then 0 else 1 + PropertyIndex(entries[1..], name)
  }

  function SchemaAt(s: Schema, at: seq<Step>): (r: Option<Schema>)
    decreases |at|
  {
    if at == [] then Some(s)
    else if s.NotASchema? then None
    else match at[0]
      case Key(name) =>
        if s.properties.Dict? && PropertyIndex(s.properties.entries, name) < |s.properties.entries| then
          SchemaAt(s.properties.entries[PropertyIndex(s.properties.entries, name)].schema, at[1..])
        else None
      case Index(i) => if s.items.Each? then SchemaAt(s.items.schema, at[1..]) else None
  }

  /** No `properties` dict repeats a name. */
  predicate UniqueNames(s: Schema) {
    s.Node? ==>
      && (s.properties.Dict? ==>
            && (forall i, j :: 0 <= i < j < |s.properties.entries| ==>
                  s.properties.entries[i].name != s.properties.entries[j].name)
            && (forall i :: 0 <= i < |s.properties.entries| ==> UniqueNames(s.properties.entries[i].schema)))
      && (s.items.Each? ==> UniqueNames(s.items.schema))
  }

  lemma {:induction false} ReadUniqueNames(j: Json)
    requires WellFormed(j)
    ensures UniqueNames(Read(j))
  {
    if j.Obj? {
      var s := Read(j);
      if s.properties.Dict? {
        var ps := Get(j.members, "properties").members;
        forall i | 0 <= i < |ps| ensures UniqueNames(Read(ps[i].value)) {
          ReadUniqueNames(ps[i].value);
        }
        UniqueNamesFromKeys(ps, s.properties.entries);
      }
      if s.items.Each? {
        ReadUniqueNames(Get(j.members, "items"));
      }
    }
  }

  lemma UniqueNamesFromKeys(ps: seq<Member>, entries: seq<Property>)
    requires UniqueKeys(ps) && |entries| == |ps|
    requires forall i :: 0 <= i < |ps| ==> entries[i] == Property(ps[i].key, Read(ps[i].value))
    ensures forall i, j :: 0 <= i < j < |entries| ==> entries[i].name != entries[j].name
  {
  }

  /**
   * An error points at something real: its path exists in the value and leads through the schema to a
   * sub-schema whose reported clause fails there, every earlier clause of that node being met.
   */
  lemma {:induction false} StopLocates(env: Env, s: Schema, v: Json, stop: Stop)
    requires FirstStop(env, s, v, stop) && UniqueNames(s)
    ensures ValueAt(v, stop.at) == Some(stop.value) && SchemaAt(s, stop.at) == Some(stop.node)
    ensures stop.node.Node? && FirstBroken(env, stop.node, stop.value, stop.clause)
    decreases stop.at
  {
    if stop.at != [] {
      match stop.at[0]
      case Key(name) =>
        var i :| FirstStopInProperty(env, s.properties.entries, v.members, i, stop);
        assert PropertyIndex(s.properties.entries, name) == i;
        StopLocates(env, s.properties.entries[i].schema, Get(v.members, name), Tail(stop));
      case Index(k) =>
        StopLocates(env, s.items.schema, v.items[k], Tail(stop));
    }
  }

  lemma ErrorLocates(env: Env, document: Json, v: Json, path: string)
    requires WellFormed(document) && Admit(Read(document), 0) == Admitted
    ensures var s, r := Read(document), Validate(env, Read(document), v, path);
      r.Fault? ==>
        && ValueAt(v, r.at).Some? && SchemaAt(s, r.at).Some? && SchemaAt(s, r.at).value.Node?
        && FirstBroken(env, SchemaAt(s, r.at).value, ValueAt(v, r.at).value, r.clause)
        && r.text == Spell(path, r.at) + Label(r.clause)
                     + env.detail(SchemaAt(s, r.at).value, ValueAt(v, r.at).value, r.clause)
  {
    var s := Read(document);
    ReadUniqueNames(document);
    ValidateDecides(env, s, v, path, 0);
    if Validate(env, s, v, path).Fault? {
      var stop :| FirstStop(env, s, v, stop);
      StopLocates(env, s, v, stop);
    }
  }

  // How deep the calls nest

  /** `Validate` on a stack with room for `frames` nested calls; the call that finds no room raises. */
  function ValidateOnStack(env: Env, s: Schema, value: Json, path: string, frames: nat): (r: Outcome)
    decreases s, 0
  {
    if frames == 0 || s.NotASchema? then Raised
    else match LocalCheck(env, s, value)
      case Raises => Raised
      case Broken(c) => Fault(path + Label(c) + env.detail(s, value, c), [], c)
      case Clear =>
        if s.kw.expected == Typed(TObject) then
          match s.properties
          case NoProperties => Passed
          case NotADict(raw) => if Falsy(raw) then Passed else Raised
          case Dict(entries) => PropertiesOnStack(env, entries, 0, value.members, path, frames - 1)
        else if s.kw.expected == Typed(TArray) && s.items.Each? then
          ItemsOnStack(env, s.items.schema, value.items, 0, path, frames - 1)
        else Passed
  }

  function PropertiesOnStack(
    env: Env, entries: seq<Property>, i: nat, members: seq<Member>, path: string, frames: nat): (r: Outcome)
    requires i <= |entries|
    decreases entries, |entries| - i
  {
    if i == |entries| then Passed
    else if !Has(members, entries[i].name) then PropertiesOnStack(env, entries, i + 1, members, path, frames)
    else
      var name := entries[i].name;
      match ValidateOnStack(env, entries[i].schema, Get(members, name), PropertyPath(path, name), frames)
      case Raised => Raised
      case Fault(text, at, c) =>
        if text != "" then Fault(text, [Key(name)] + at, c)
        else PropertiesOnStack(env, entries, i + 1, members, path, frames)
      case Passed => PropertiesOnStack(env, entries, i + 1, members, path, frames)
  }

  function ItemsOnStack(env: Env, s: Schema, items: seq<Json>, i: nat, path: string, frames: nat): (r: Outcome)
    requires i <= |items|
    decreases s, 1, |items| - i
  {
    if i == |items| then Passed
    else
      match ValidateOnStack(env, s, items[i], ItemPath(path, i), frames)
      case Raised => Raised
      case Fault(text, at, c) =>
        if text != "" then Fault(text, [Index(i)] + at, c) else ItemsOnStack(env, s, items, i + 1, path, frames)
      case Passed => ItemsOnStack(env, s, items, i + 1, path, frames)
  }

  /** Nine frames are always enough for an admitted schema, however deep the value is. */
  lemma NineFramesSuffice(env: Env, s: Schema, v: Json, path: string)
    requires Admit(s, 0) == Admitted
    ensures ValidateOnStack(env, s, v, path, 9) == Validate(env, s, v, path)
  {
    AdmitIffAdmissible(s, 0);
    StackSuffices(env, s, v, path, 0);
  }

  lemma {:induction false} StackSuffices(env: Env, s: Schema, v: Json, path: string, depth: nat)
    requires Admissible(s, depth)
    ensures ValidateOnStack(env, s, v, path, MAX_SCHEMA_DEPTH + 1 - depth) == Validate(env, s, v, path)
    decreases s, 0
  {
    if LocalCheck(env, s, v) == Clear {
      if s.kw.expected == Typed(TObject) && s.properties.Dict? {
        StackSufficesProperties(env, s.properties.entries, 0, v.members, path, depth + 1);
      } else if s.kw.expected == Typed(TArray) && s.items.Each? {
        StackSufficesItems(env, s.items.schema, v.items, 0, path, depth + 1);
      }
    }
  }

  lemma {:induction false} StackSufficesProperties(
    env: Env, entries: seq<Property>, i: nat, ms: seq<Member>, path: string, depth: nat)
    requires i <= |entries| && depth <= MAX_SCHEMA_DEPTH + 1
    requires forall k :: 0 <= k < |entries| ==> Admissible(entries[k].schema, depth)
    ensures PropertiesOnStack(env, entries, i, ms, path, MAX_SCHEMA_DEPTH + 1 - depth)
      == ValidateProperties(env, entries, i, ms, path)
    decreases entries, |entries| - i
  {
    if i < |entries| {
      var name := entries[i].name;
      if Has(ms, name) {
        StackSuffices(env, entries[i].schema, Get(ms, name), PropertyPath(path, name), depth);
      }
      StackSufficesProperties(env, entries, i + 1, ms, path, depth);
    }
  }

  lemma {:induction false} StackSufficesItems(env: Env, s: Schema, items: seq<Json>, i: nat, path: string, depth: nat)
    requires i <= |items| && Admissible(s, depth)
    ensures ItemsOnStack(env, s, items, i, path, MAX_SCHEMA_DEPTH + 1 - depth)
      == ValidateItems(env, s, items, i, path)
    decreases s, 1, |items| - i
  {
    if i < |items| {
      StackSuffices(env, s, items[i], ItemPath(path, i), depth);
      StackSufficesItems(env, s, items, i + 1, path, depth);
    }
  }
}
