/** A capability's declared schema as a document: admitted once, then applied to every call's arguments. */
module Capability {
  import opened Wrappers
  import opened Json
  import opened Schema
  import opened Arguments
  import opened SchemaMeaning
  import JsonText
  import Utf8

  const MAX_CAPABILITY_SCHEMA_BYTES: nat := 16 * 1024

  datatype DocumentVerdict = TooManyBytes | RootNotObject | Nodewise(verdict: Verdict)

  /** `_validate_schema`: size of the compact JSON text, root type, then the node pass. */
  function ValidateSchema(document: Json, requireObject: bool, floatText: real -> string): (v: DocumentVerdict)
    requires document.Obj?
  {
    var encoded := Utf8.Encode(JsonText.Dumps(document, JsonText.Style(",", ":", floatText)));
    if |encoded| > MAX_CAPABILITY_SCHEMA_BYTES then TooManyBytes
    else if requireObject && ReadType(document.members) != Typed(TObject) then RootNotObject
    else Nodewise(Admit(Read(document), 0))
  }

  // What a document allows, by the names of its keywords

  predicate HasType(ms: seq<Member>, name: string) { Given(ms, "type") == Some(Str(name)) }

  predicate TypeAllows(ms: seq<Member>, v: Json) {
    && (HasType(ms, "object") ==> v.Obj?)
    && (HasType(ms, "array") ==> v.Arr?)
    && (HasType(ms, "string") ==> v.Str?)
    && (HasType(ms, "integer") ==> v.Int?)
    && (HasType(ms, "number") ==> v.Int? || v.Float?)
    && (HasType(ms, "boolean") ==> v.Bool?)
    && (HasType(ms, "null") ==> v.Null?)
  }

  /** The keyword lists the name. */
  predicate Lists(keyword: Option<Json>, name: string) {
    keyword.Some? && keyword.value.Arr? && Str(name) in keyword.value.items
  }

  /** The declared properties; anything but a dict declares none. */
  function PropertiesOf(ms: seq<Member>): (ps: seq<Member>) {
    match Given(ms, "properties")
    case Some(Obj(ps)) => ps
    case _ => []
  }

  ghost predicate KeysAllowed(
    required: Option<Json>, additional: Option<Json>, ps: seq<Member>, fields: seq<Member>)
  {
    && (forall name :: Lists(required, name) ==> Has(fields, name))
    && (additional == Some(Bool(false)) ==> forall name :: Has(fields, name) ==> Has(ps, name))
  }

  /** The keyword is a number, a boolean counting as 0 or 1. */
  predicate Says(keyword: Option<Json>, x: real) {
    keyword.Some? && NumberOf(keyword.value) == Some(x)
  }

  /** The keyword is a whole number written as one: a size is not bounded by `2.0`. */
  predicate Counts(keyword: Option<Json>, n: int) {
    Says(keyword, n as real) && !keyword.value.Float?
  }

  ghost predicate SizeAllowed(least: Option<Json>, most: Option<Json>, size: nat) {
    && (forall n :: Counts(least, n) ==> size >= n)
    && (forall n :: Counts(most, n) ==> size <= n)
  }

  predicate PatternAllows(env: Env, pattern: Option<Json>, text: string) {
    pattern.Some? && pattern.value.Str? ==> env.search(pattern.value.s, text)
  }

  ghost predicate BoundsAllow(
    minimum: Option<Json>, maximum: Option<Json>, above: Option<Json>, below: Option<Json>, x: real)
  {
    && (forall b :: Says(minimum, b) ==> x >= b)
    && (forall b :: Says(maximum, b) ==> x <= b)
    && (forall b :: Says(above, b) ==> x > b)
    && (forall b :: Says(below, b) ==> x < b)
  }

  ghost predicate ValueAllowed(constant: Option<Json>, enum: Option<Json>, v: Json) {
    && (constant.Some? ==> SameValue(v, constant.value))
    && (enum.Some? ==> enum.value.Arr? && exists x :: x in enum.value.items && SameValue(v, x))
  }

  /** What the dict itself allows, its child schemas aside. */
  ghost predicate NodeAllows(env: Env, ms: seq<Member>, v: Json) {
    && TypeAllows(ms, v)
    && ValueAllowed(Lookup(ms, "const"), Lookup(ms, "enum"), v)
    && (HasType(ms, "object") ==>
          KeysAllowed(Lookup(ms, "required"), Lookup(ms, "additionalProperties"), PropertiesOf(ms), v.members))
    && (HasType(ms, "array") ==> SizeAllowed(Lookup(ms, "minItems"), Lookup(ms, "maxItems"), |v.items|))
    && (HasType(ms, "string") ==>
          && SizeAllowed(Lookup(ms, "minLength"), Lookup(ms, "maxLength"), |v.s|)
          && PatternAllows(env, Lookup(ms, "pattern"), v.s))
    && (HasType(ms, "integer") || HasType(ms, "number") ==>
          BoundsAllow(Lookup(ms, "minimum"), Lookup(ms, "maximum"),
                      Lookup(ms, "exclusiveMinimum"), Lookup(ms, "exclusiveMaximum"), NumberOf(v).value))
  }

  /** What a schema document allows, properties and items included. */
  ghost predicate Allows(env: Env, document: Json, v: Json)
    decreases document
  {
    match document
    case Obj(ms) =>
      && NodeAllows(env, ms, v)
      && (match Given(ms, "properties")
          case Some(Obj(ps)) => v.Obj? ==> forall name :: PropertyAllows(env, ps, v.members, name)
          case _ => true)
      && (match Given(ms, "items")
          case Some(child) => v.Arr? ==> forall i :: 0 <= i < |v.items| ==> Allows(env, child, v.items[i])
          case None => true)
    case _ => false
  }

  ghost predicate PropertyAllows(env: Env, ps: seq<Member>, fields: seq<Member>, name: string)
    decreases ps
  {
    Has(ps, name) && Has(fields, name) ==> Allows(env, Get(ps, name), Get(fields, name))
  }

  lemma TypeByName(ms: seq<Member>)
    ensures HasType(ms, "object") <==> ReadType(ms) == Typed(TObject)
    ensures HasType(ms, "array") <==> ReadType(ms) == Typed(TArray)
    ensures HasType(ms, "string") <==> ReadType(ms) == Typed(TString)
    ensures HasType(ms, "integer") <==> ReadType(ms) == Typed(TInteger)
    ensures HasType(ms, "number") <==> ReadType(ms) == Typed(TNumber)
    ensures HasType(ms, "boolean") <==> ReadType(ms) == Typed(TBoolean)
    ensures HasType(ms, "null") <==> ReadType(ms) == Typed(TNull)
  {
  }

  lemma TypeIff(env: Env, ms: seq<Member>, v: Json)
    ensures TypeAllows(ms, v) <==> Holds(env, Read(Obj(ms)), v, TypeClause)
  {
    ReadNode(ms);
    TypeMatches(ms, v);
  }

  lemma TypeMatches(ms: seq<Member>, v: Json)
    ensures TypeAllows(ms, v) <==> (ReadType(ms).Typed? ==> MatchesJsonType(v, ReadType(ms).t))
  {
    TypeByName(ms);
  }

  lemma DeclaresIff(ms: seq<Member>, name: string)
    ensures Declares(Read(Obj(ms)).properties, name) <==> Has(PropertiesOf(ms), name)
  {
    var ps, p := PropertiesOf(ms), Read(Obj(ms)).properties;
    HasIffMember(ps, name);
    if p.Dict? {
      assert |p.entries| == |ps| && forall i :: 0 <= i < |ps| ==> p.entries[i].name == ps[i].key;
    }
  }

  // Each clause of a node says what the keywords say

  lemma ValueIff(env: Env, s: Schema, v: Json)
    requires s.Node? && WellFormed(v)
    requires s.kw.constant.Some? ==> WellFormed(s.kw.constant.value)
    requires s.kw.enum.Some? ==> WellFormed(s.kw.enum.value)
    ensures ValueAllowed(s.kw.constant, s.kw.enum, v) <==> Holds(env, s, v, ConstClause) && Holds(env, s, v, EnumClause)
  {
    if s.kw.constant.Some? {
      PyEqIffSameValue(v, s.kw.constant.value);
    }
    if s.kw.enum.Some? && s.kw.enum.value.Arr? {
      forall x | x in s.kw.enum.value.items ensures PyEq(v, x) <==> SameValue(v, x) {
        PyEqIffSameValue(v, x);
      }
    }
  }

  lemma KeysIff(env: Env, s: Schema, ps: seq<Member>, v: Json)
    requires s.Node? && s.kw.expected == Typed(TObject) && v.Obj?
    requires forall name :: Declares(s.properties, name) <==> Has(ps, name)
    ensures KeysAllowed(s.kw.required, s.kw.additional, ps, v.members) <==>
      Holds(env, s, v, RequiredClause) && Holds(env, s, v, ExtraClause)
  {
  }

  lemma SizeIff(least: Option<Json>, most: Option<Json>, size: nat)
    ensures SizeAllowed(least, most, size) <==> AtLeast(size, IntBound(least)) && AtMost(size, IntBound(most))
  {
    assert forall n :: Counts(least, n) <==> IntBound(least) == Some(n);
    assert forall n :: Counts(most, n) <==> IntBound(most) == Some(n);
    if IntBound(least).Some? {
      assert Counts(least, IntBound(least).value);
    }
    if IntBound(most).Some? {
      assert Counts(most, IntBound(most).value);
    }
  }

  lemma SizesIff(env: Env, s: Schema, v: Json)
    requires s.Node?
    ensures s.kw.expected == Typed(TArray) && v.Arr? ==>
      (SizeAllowed(s.kw.minItems, s.kw.maxItems, |v.items|) <==>
        Holds(env, s, v, MinItemsClause) && Holds(env, s, v, MaxItemsClause))
    ensures s.kw.expected == Typed(TString) && v.Str? ==>
      (SizeAllowed(s.kw.minLength, s.kw.maxLength, |v.s|) <==>
        Holds(env, s, v, MinLengthClause) && Holds(env, s, v, MaxLengthClause))
      && (PatternAllows(env, s.kw.pattern, v.s) <==> Holds(env, s, v, PatternClause))
  {
    if v.Arr? {
      SizeIff(s.kw.minItems, s.kw.maxItems, |v.items|);
    } else if v.Str? {
      SizeIff(s.kw.minLength, s.kw.maxLength, |v.s|);
    }
  }

  lemma SaysBound(keyword: Option<Json>, x: real)
    ensures Says(keyword, x) <==> NumberBound(keyword) == Some(x)
  {
  }

  lemma BoundsIff(env: Env, s: Schema, v: Json)
    requires s.Node? && Numeric(s, v)
    ensures BoundsAllow(s.kw.minimum, s.kw.maximum, s.kw.exclusiveMinimum, s.kw.exclusiveMaximum, NumberOf(v).value)
      <==>
        && Holds(env, s, v, MinimumClause) && Holds(env, s, v, MaximumClause)
        && Holds(env, s, v, ExclusiveMinimumClause) && Holds(env, s, v, ExclusiveMaximumClause)
  {
    forall k, x ensures Says(k, x) <==> NumberBound(k) == Some(x) {
      SaysBound(k, x);
    }
  }

  /** The clauses that speak of one type say nothing under another. */
  lemma OtherTypes(env: Env, s: Schema, v: Json)
    requires s.Node?
    ensures s.kw.expected != Typed(TObject) ==> Holds(env, s, v, RequiredClause) && Holds(env, s, v, ExtraClause)
    ensures s.kw.expected != Typed(TArray) ==> Holds(env, s, v, MinItemsClause) && Holds(env, s, v, MaxItemsClause)
    ensures s.kw.expected != Typed(TString) ==>
      Holds(env, s, v, MinLengthClause) && Holds(env, s, v, MaxLengthClause) && Holds(env, s, v, PatternClause)
    ensures s.kw.expected != Typed(TInteger) && s.kw.expected != Typed(TNumber) ==>
      && Holds(env, s, v, MinimumClause) && Holds(env, s, v, MaximumClause)
      && Holds(env, s, v, ExclusiveMinimumClause) && Holds(env, s, v, ExclusiveMaximumClause)
  {
  }

  ghost predicate HoldsAll(env: Env, s: Schema, v: Json)
    requires s.Node?
  {
    && Holds(env, s, v, TypeClause) && Holds(env, s, v, ConstClause) && Holds(env, s, v, EnumClause)
    && Holds(env, s, v, RequiredClause) && Holds(env, s, v, ExtraClause)
    && Holds(env, s, v, MinItemsClause) && Holds(env, s, v, MaxItemsClause)
    && Holds(env, s, v, MinLengthClause) && Holds(env, s, v, MaxLengthClause) && Holds(env, s, v, PatternClause)
    && Holds(env, s, v, MinimumClause) && Holds(env, s, v, MaximumClause)
    && Holds(env, s, v, ExclusiveMinimumClause) && Holds(env, s, v, ExclusiveMaximumClause)
  }

  lemma ClausesListed(env: Env, s: Schema, v: Json)
    requires s.Node?
    ensures HoldsAll(env, s, v) <==> forall c :: Holds(env, s, v, c)
  {
    if HoldsAll(env, s, v) {
      forall c ensures Holds(env, s, v, c) {
        match c { case TypeClause => case _ => }
      }
    }
  }

  lemma ReadNode(ms: seq<Member>)
    ensures var s := Read(Obj(ms));
      s.Node? && s.kw == ReadKeywords(ms)
  {
  }

  lemma LookupInside(ms: seq<Member>, key: string)
    requires WellFormed(Obj(ms))
    ensures Lookup(ms, key).Some? ==> WellFormed(Lookup(ms, key).value)
  {
  }

  lemma NodeIff(env: Env, ms: seq<Member>, v: Json)
    requires WellFormed(Obj(ms)) && WellFormed(v)
    ensures Read(Obj(ms)).Node?
    ensures NodeAllows(env, ms, v) <==> forall c :: Holds(env, Read(Obj(ms)), v, c)
  {
    var s := Read(Obj(ms));
    ReadNode(ms);
    ClausesListed(env, s, v);
    TypeByName(ms);
    TypeIff(env, ms, v);
    if TypeAllows(ms, v) {
      LookupInside(ms, "const");
      LookupInside(ms, "enum");
      ValueIff(env, s, v);
      OtherTypes(env, s, v);
      SizesIff(env, s, v);
      forall name ensures Declares(s.properties, name) <==> Has(PropertiesOf(ms), name) {
        DeclaresIff(ms, name);
      }
      if HasType(ms, "object") {
        KeysIff(env, s, PropertiesOf(ms), v);
      } else if HasType(ms, "integer") || HasType(ms, "number") {
        BoundsIff(env, s, v);
      }
    }
  }

  /** The parts of a value a dict of property schemas speaks of fit them. */
  ghost predicate EntriesFit(env: Env, ps: seq<Member>, fields: seq<Member>) {
    forall i :: 0 <= i < |ps| ==> FitsProperty(env, Property(ps[i].key, Read(ps[i].value)), fields)
  }

  ghost predicate ChildrenFit(env: Env, properties: Option<Json>, items: Option<Json>, v: Json) {
    && (properties.Some? && properties.value.Obj? && v.Obj? ==> EntriesFit(env, properties.value.members, v.members))
    && (items.Some? && v.Arr? ==> ItemsFit(env, items.value, v.items))
  }

  ghost predicate ItemsFit(env: Env, child: Json, items: seq<Json>) {
    forall i :: 0 <= i < |items| ==> Satisfies(env, Read(child), items[i])
  }

  ghost predicate ChildrenAllowed(env: Env, properties: Option<Json>, items: Option<Json>, v: Json) {
    && (properties.Some? && properties.value.Obj? && v.Obj? ==>
          EntriesAllowed(env, properties.value.members, v.members))
    && (items.Some? && v.Arr? ==> ItemsAllowed(env, items.value, v.items))
  }

  ghost predicate EntriesAllowed(env: Env, ps: seq<Member>, fields: seq<Member>) {
    forall name :: PropertyAllows(env, ps, fields, name)
  }

  ghost predicate ItemsAllowed(env: Env, child: Json, items: seq<Json>) {
    forall i :: 0 <= i < |items| ==> Allows(env, child, items[i])
  }

  lemma ReadProperties(ms: seq<Member>)
    ensures var p := Read(Obj(ms)).properties;
      match Given(ms, "properties")
      case Some(Obj(ps)) =>
        p == Dict(seq(|ps|, i requires 0 <= i < |ps| => Property(ps[i].key, Read(ps[i].value))))
      case _ => !p.Dict?
  {
  }

  lemma ReadItems(ms: seq<Member>)
    ensures var items := Read(Obj(ms)).items;
      match Given(ms, "items")
      case Some(child) => items == Each(Read(child))
      case None => items == NoItems
  {
  }

  lemma SatisfiesByParts(env: Env, ms: seq<Member>, v: Json)
    requires WellFormed(Obj(ms)) && WellFormed(v)
    ensures Satisfies(env, Read(Obj(ms)), v) <==>
      NodeAllows(env, ms, v) && ChildrenFit(env, Given(ms, "properties"), Given(ms, "items"), v)
  {
    NodeIff(env, ms, v);
    ReadProperties(ms);
    ReadItems(ms);
    NodeByParts(env, Read(Obj(ms)), Given(ms, "properties"), Given(ms, "items"), v);
  }

  lemma NodeByParts(env: Env, s: Schema, properties: Option<Json>, items: Option<Json>, v: Json)
    requires s.Node?
    requires match properties
      case Some(Obj(ps)) =>
        s.properties == Dict(seq(|ps|, i requires 0 <= i < |ps| => Property(ps[i].key, Read(ps[i].value))))
      case _ => !s.properties.Dict?
    requires s.items == if items.Some? then Each(Read(items.value)) else NoItems
    ensures Satisfies(env, s, v) <==> (forall c :: Holds(env, s, v, c)) && ChildrenFit(env, properties, items, v)
  {
    if s.properties.Dict? && v.Obj? {
      EntriesByIndex(env, s.properties.entries, properties.value.members, v.members);
    }
  }

  lemma EntriesByIndex(env: Env, entries: seq<Property>, ps: seq<Member>, fields: seq<Member>)
    requires entries == seq(|ps|, i requires 0 <= i < |ps| => Property(ps[i].key, Read(ps[i].value)))
    ensures EntriesFit(env, ps, fields) <==> forall i :: 0 <= i < |entries| && Has(fields, entries[i].name) ==>
      Satisfies(env, entries[i].schema, Get(fields, entries[i].name))
  {
    assert forall i :: 0 <= i < |ps| ==> entries[i] == Property(ps[i].key, Read(ps[i].value));
    if EntriesFit(env, ps, fields) {
      forall i | 0 <= i < |entries| && Has(fields, entries[i].name)
        ensures Satisfies(env, entries[i].schema, Get(fields, entries[i].name))
      {
        assert FitsProperty(env, Property(ps[i].key, Read(ps[i].value)), fields);
      }
    }
  }

  lemma AllowsByParts(env: Env, ms: seq<Member>, v: Json)
    ensures Allows(env, Obj(ms), v) <==>
      NodeAllows(env, ms, v) && ChildrenAllowed(env, Given(ms, "properties"), Given(ms, "items"), v)
  {
  }

  /** Reading a document into a schema keeps its meaning: what fits the schema is what the document allows. */
  lemma {:induction false} ReadKeepsMeaning(env: Env, document: Json, v: Json)
    requires WellFormed(document) && WellFormed(v)
    ensures Satisfies(env, Read(document), v) <==> Allows(env, document, v)
    decreases document, 0
  {
    match document
    case Obj(ms) =>
      SatisfiesByParts(env, ms, v);
      AllowsByParts(env, ms, v);
      var properties, items := Given(ms, "properties"), Given(ms, "items");
      GivenInside(ms, "properties");
      GivenInside(ms, "items");
      if properties.Some? && properties.value.Obj? && v.Obj? {
        EntriesMeaning(env, properties.value, v.members);
      }
      if items.Some? && v.Arr? {
        ItemsMeaning(env, items.value, v.items);
      }
    case _ =>
  }

  /** What a keyword holds is part of the document. */
  lemma GivenInside(ms: seq<Member>, key: string)
    requires WellFormed(Obj(ms))
    ensures var r := Given(ms, key);
      r.Some? ==> r.value < Obj(ms) && WellFormed(r.value)
  {
  }

  lemma {:induction false} ItemsMeaning(env: Env, child: Json, items: seq<Json>)
    requires WellFormed(child) && forall i :: 0 <= i < |items| ==> WellFormed(items[i])
    ensures ItemsFit(env, child, items) <==> ItemsAllowed(env, child, items)
    decreases child, 1
  {
    forall i | 0 <= i < |items| ensures Satisfies(env, Read(child), items[i]) <==> Allows(env, child, items[i]) {
      ReadKeepsMeaning(env, child, items[i]);
    }
  }

  lemma {:induction false} EntriesMeaning(env: Env, dict: Json, fields: seq<Member>)
    requires dict.Obj? && WellFormed(dict) && WellFormed(Obj(fields))
    ensures EntriesFit(env, dict.members, fields) <==> EntriesAllowed(env, dict.members, fields)
    decreases dict, 1
  {
    var ps := dict.members;
    forall i | 0 <= i < |ps|
      ensures FitsProperty(env, Property(ps[i].key, Read(ps[i].value)), fields) <==>
        PropertyAllows(env, ps, fields, ps[i].key)
    {
      GetAt(ps, i);
      if Has(fields, ps[i].key) {
        ReadKeepsMeaning(env, ps[i].value, Get(fields, ps[i].key));
      }
    }
    PropertiesByName(env, ps, fields);
  }

  lemma PropertiesByName(env: Env, ps: seq<Member>, fields: seq<Member>)
    ensures (forall i :: 0 <= i < |ps| ==> PropertyAllows(env, ps, fields, ps[i].key)) <==>
      EntriesAllowed(env, ps, fields)
  {
    if forall i :: 0 <= i < |ps| ==> PropertyAllows(env, ps, fields, ps[i].key) {
      forall name ensures PropertyAllows(env, ps, fields, name) {
        if Has(ps, name) {
          assert ps[IndexOf(ps, name)].key == name;
        }
      }
    }
  }

  /**
   * A declared input schema decides every argument: whatever is passed, the check either passes, and then the
   * arguments are an object that the document allows, or names a place in the arguments where a clause of the schema
   * breaks. With every `enum` a list it never raises.
   */
  lemma DeclaredInputDecides(document: Json, floatText: real -> string, env: Env, v: Json, path: string)
    requires WellFormed(document) && document.Obj? && WellFormed(v)
    requires ValidateSchema(document, true, floatText) == Nodewise(Admitted)
    ensures var s, r := Read(document), Validate(env, Read(document), v, path);
      && (r == Passed <==> Allows(env, document, v))
      && (r == Passed ==> v.Obj?)
      && (r.Fault? ==>
            && ValueAt(v, r.at).Some? && SchemaAt(s, r.at).Some? && SchemaAt(s, r.at).value.Node?
            && !Holds(env, SchemaAt(s, r.at).value, ValueAt(v, r.at).value, r.clause))
      && (EnumsListed(s) ==> r != Raised)
  {
    var s := Read(document);
    ReadKeepsMeaning(env, document, v);
    ValidateDecides(env, s, v, path, 0);
    ErrorLocates(env, document, v, path);
    if EnumsListed(s) {
      AdmittedNeverRaises(env, s, v, path);
    }
    if Satisfies(env, s, v) {
      assert Holds(env, s, v, TypeClause);
    }
  }

}
