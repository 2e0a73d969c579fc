/** When a capability's schema document is accepted, said on the document by keyword and limit. */
module Admission {
  import opened Wrappers
  import opened Json
  import opened Schema
  import opened Capability
  import JsonText
  import Utf8

  /** The keywords a schema may use. */
  const KEYWORDS: seq<string> := [
    "type", "description", "properties", "required", "additionalProperties", "items", "enum", "const", "minimum",
    "maximum", "exclusiveMinimum", "exclusiveMaximum", "minLength", "maxLength", "minItems", "maxItems", "pattern",
    "format", "default"]

  predicate NamesType(ms: seq<Member>) {
    || HasType(ms, "object") || HasType(ms, "array") || HasType(ms, "string") || HasType(ms, "integer")
    || HasType(ms, "number") || HasType(ms, "boolean") || HasType(ms, "null")
  }

  /** A list of strings, none twice, each the name of a declared property. */
  predicate NamesProperties(required: Json, ps: seq<Member>) {
    && required.Arr?
    && (forall i :: 0 <= i < |required.items| ==> required.items[i].Str? && Has(ps, required.items[i].s))
    && (forall i, j :: 0 <= i < j < |required.items| ==> required.items[i] != required.items[j])
  }

  /** What one dict of a schema document must be, child schemas aside. An explicit null counts as absent. */
  predicate NodeAccepted(ms: seq<Member>) {
    && (forall i :: 0 <= i < |ms| ==> ms[i].key in KEYWORDS)
    && (Given(ms, "type").Some? ==> NamesType(ms))
    && DescriptionAccepted(Given(ms, "description"))
    && EnumAccepted(Given(ms, "enum"))
    && PropertiesAccepted(Given(ms, "properties"), HasType(ms, "object"))
    && RequiredAccepted(Given(ms, "required"), Given(ms, "properties"))
    && (Given(ms, "additionalProperties").Some? ==> Given(ms, "additionalProperties").value.Bool?)
    && (Given(ms, "items").Some? ==> HasType(ms, "array"))
  }

  predicate DescriptionAccepted(description: Option<Json>) {
    description.Some? ==> description.value.Str? && |description.value.s| <= 256
  }

  predicate EnumAccepted(enum: Option<Json>) {
    enum.Some? ==> enum.value.Arr? && 1 <= |enum.value.items| <= 64
  }

  predicate PropertiesAccepted(properties: Option<Json>, isObject: bool) {
    properties.Some? ==>
      && isObject && properties.value.Obj? && |properties.value.members| <= 64
      && forall i :: 0 <= i < |properties.value.members| ==> 1 <= |properties.value.members[i].key| <= 128
  }

  predicate RequiredAccepted(required: Option<Json>, properties: Option<Json>) {
    required.Some? ==>
      properties.Some? && properties.value.Obj? && NamesProperties(required.value, properties.value.members)
  }

  /** Every dict of the document in order, none nested more than eight deep. */
  predicate Accepted(document: Json, depth: nat)
    decreases document
  {
    match document
    case Obj(ms) =>
      && depth <= 8
      && NodeAccepted(ms)
      && (match Given(ms, "properties")
          case Some(Obj(ps)) => forall i :: 0 <= i < |ps| ==> Accepted(ps[i].value, depth + 1)
          case _ => true)
      && (match Given(ms, "items")
          case Some(child) => Accepted(child, depth + 1)
          case None => true)
    case _ => false
  }

  // What reading makes of the keywords

  lemma KeywordListed(key: string)
    ensures key in SCHEMA_KEYS <==> key in KEYWORDS
  {
  }

  lemma UnknownIff(ms: seq<Member>)
    ensures ReadKeywords(ms).unknown == {} <==> forall i :: 0 <= i < |ms| ==> ms[i].key in KEYWORDS
  {
    var unknown := set i | 0 <= i < |ms| && ms[i].key !in SCHEMA_KEYS :: ms[i].key;
    forall i | 0 <= i < |ms| ensures ms[i].key !in KEYWORDS <==> ms[i].key in unknown {
      KeywordListed(ms[i].key);
    }
    if unknown != {} {
      var key :| key in unknown;
      var i :| 0 <= i < |ms| && ms[i].key == key;
      assert ms[i].key !in KEYWORDS;
    }
  }

  lemma TypeIff(ms: seq<Member>)
    ensures !ReadType(ms).Foreign? <==> (Given(ms, "type").Some? ==> NamesType(ms))
    ensures HasType(ms, "object") <==> ReadType(ms) == Typed(TObject)
    ensures HasType(ms, "array") <==> ReadType(ms) == Typed(TArray)
  {
  }

  lemma GivenLookup(ms: seq<Member>, key: string)
    ensures Given(ms, key) == if IsGiven(Lookup(ms, key)) then Lookup(ms, key) else None
  {
  }

  /** What reading makes of a keyword that holds property schemas. */
  predicate ReadsAs(properties: Option<Json>, p: Properties) {
    match properties
    case None => p == NoProperties
    case Some(Obj(ps)) => p == Dict(seq(|ps|, i requires 0 <= i < |ps| => Property(ps[i].key, Read(ps[i].value))))
    case Some(raw) => p == NotADict(raw)
  }

  lemma PropertiesRead(ms: seq<Member>)
    ensures ReadsAs(Given(ms, "properties"), Read(Obj(ms)).properties)
  {
  }

  lemma RequiredIff(required: Option<Json>, properties: Option<Json>, p: Properties)
    requires ReadsAs(properties, p)
    ensures RequiredAccepted(required, properties) <==>
      (required.Some? ==> required.value.Arr? && p.Dict? && DeclaredNames(required.value.items, p.entries))
  {
    if properties.Some? && properties.value.Obj? {
      var ps := properties.value.members;
      forall name ensures HasProperty(p.entries, name) <==> Has(ps, name) {
        HasIffMember(ps, name);
        assert forall i :: 0 <= i < |ps| ==> p.entries[i].name == ps[i].key;
      }
    }
  }

  lemma PropertiesIff(properties: Option<Json>, p: Properties, isObject: bool)
    requires ReadsAs(properties, p)
    ensures PropertiesAccepted(properties, isObject) <==>
      && !p.NotADict?
      && (p.Dict? ==>
            && isObject && |p.entries| <= 64
            && forall i :: 0 <= i < |p.entries| ==> 1 <= |p.entries[i].name| <= 128)
  {
    if properties.Some? && properties.value.Obj? {
      var ps := properties.value.members;
      assert forall i :: 0 <= i < |ps| ==> p.entries[i].name == ps[i].key;
    }
  }

  function NotNull(k: Option<Json>): (r: Option<Json>) { if IsGiven(k) then k else None }

  lemma ShapeByParts(s: Schema)
    requires s.Node?
    ensures var kw, p := s.kw, s.properties;
      NodeShape(s) <==>
        && kw.unknown == {} && !kw.expected.Foreign?
        && DescriptionAccepted(NotNull(kw.description)) && EnumAccepted(NotNull(kw.enum))
        && !p.NotADict?
        && (p.Dict? ==>
              && kw.expected == Typed(TObject) && |p.entries| <= 64
              && forall i :: 0 <= i < |p.entries| ==> 1 <= |p.entries[i].name| <= 128)
        && (NotNull(kw.required).Some? ==>
              kw.required.value.Arr? && p.Dict? && DeclaredNames(kw.required.value.items, p.entries))
        && (NotNull(kw.additional).Some? ==> kw.additional.value.Bool?)
        && (s.items.Each? ==> kw.expected == Typed(TArray))
  {
  }

  lemma NodeIff(ms: seq<Member>)
    ensures NodeShape(Read(Obj(ms))) <==> NodeAccepted(ms)
  {
    var s := Read(Obj(ms));
    Capability.ReadNode(ms);
    ShapeByParts(s);
    UnknownIff(ms);
    TypeIff(ms);
    PropertiesRead(ms);
    Capability.ReadItems(ms);
    GivenLookup(ms, "description");
    GivenLookup(ms, "enum");
    GivenLookup(ms, "required");
    GivenLookup(ms, "additionalProperties");
    PropertiesIff(Given(ms, "properties"), s.properties, HasType(ms, "object"));
    RequiredIff(Given(ms, "required"), Given(ms, "properties"), s.properties);
  }

  // Whole documents

  ghost predicate ChildrenAdmissible(properties: Option<Json>, items: Option<Json>, depth: nat) {
    && (properties.Some? && properties.value.Obj? ==> EntriesAdmissible(properties.value.members, depth))
    && (items.Some? ==> Admissible(Read(items.value), depth))
  }

  ghost predicate EntriesAdmissible(ps: seq<Member>, depth: nat) {
    forall i :: 0 <= i < |ps| ==> Admissible(Read(ps[i].value), depth)
  }

  ghost predicate ChildrenAccepted(properties: Option<Json>, items: Option<Json>, depth: nat) {
    && (properties.Some? && properties.value.Obj? ==> EntriesAccepted(properties.value.members, depth))
    && (items.Some? ==> Accepted(items.value, depth))
  }

  ghost predicate EntriesAccepted(ps: seq<Member>, depth: nat) {
    forall i :: 0 <= i < |ps| ==> Accepted(ps[i].value, depth)
  }

  lemma AdmissibleByParts(ms: seq<Member>, depth: nat)
    ensures Admissible(Read(Obj(ms)), depth) <==>
      depth <= 8 && NodeAccepted(ms) && ChildrenAdmissible(Given(ms, "properties"), Given(ms, "items"), depth + 1)
  {
    NodeIff(ms);
    Capability.ReadNode(ms);
    PropertiesRead(ms);
    Capability.ReadItems(ms);
    SchemaByParts(Read(Obj(ms)), Given(ms, "properties"), Given(ms, "items"), depth);
  }

  lemma SchemaByParts(s: Schema, properties: Option<Json>, items: Option<Json>, depth: nat)
    requires s.Node? && ReadsAs(properties, s.properties)
    requires s.items == if items.Some? then Each(Read(items.value)) else NoItems
    ensures Admissible(s, depth) <==> depth <= 8 && NodeShape(s) && ChildrenAdmissible(properties, items, depth + 1)
  {
    if s.properties.Dict? {
      var entries, ps := s.properties.entries, properties.value.members;
      assert forall i :: 0 <= i < |ps| ==> entries[i].schema == Read(ps[i].value);
    }
  }

  lemma AcceptedByParts(ms: seq<Member>, depth: nat)
    ensures Accepted(Obj(ms), depth) <==>
      depth <= 8 && NodeAccepted(ms) && ChildrenAccepted(Given(ms, "properties"), Given(ms, "items"), depth + 1)
  {
  }

  lemma {:induction false} AdmissibleIffAccepted(document: Json, depth: nat)
    ensures Admissible(Read(document), depth) <==> Accepted(document, depth)
    decreases document, 1
  {
    match document
    case Obj(ms) =>
      var properties, items := Given(ms, "properties"), Given(ms, "items");
      PartInside(ms, "properties");
      PartInside(ms, "items");
      ChildrenIff(document, properties, items, depth + 1);
      DictIff(ms, properties, items, depth);
    case _ =>
  }

  lemma DictIff(ms: seq<Member>, properties: Option<Json>, items: Option<Json>, depth: nat)
    requires properties == Given(ms, "properties") && items == Given(ms, "items")
    requires ChildrenAdmissible(properties, items, depth + 1) <==> ChildrenAccepted(properties, items, depth + 1)
    ensures Admissible(Read(Obj(ms)), depth) <==> Accepted(Obj(ms), depth)
  {
    AdmissibleByParts(ms, depth);
    AcceptedByParts(ms, depth);
  }

  lemma {:induction false} ChildrenIff(document: Json, properties: Option<Json>, items: Option<Json>, depth: nat)
    requires properties.Some? ==> properties.value < document
    requires items.Some? ==> items.value < document
    ensures ChildrenAdmissible(properties, items, depth) <==> ChildrenAccepted(properties, items, depth)
    decreases document, 0
  {
    if properties.Some? && properties.value.Obj? {
      EntriesIff(properties.value, depth);
    }
    if items.Some? {
      AdmissibleIffAccepted(items.value, depth);
    }
  }

  lemma PartInside(ms: seq<Member>, key: string)
    ensures Given(ms, key).Some? ==> Given(ms, key).value < Obj(ms)
  {
  }

  lemma {:induction false} EntriesIff(dict: Json, depth: nat)
    requires dict.Obj?
    ensures EntriesAdmissible(dict.members, depth) <==> EntriesAccepted(dict.members, depth)
    decreases dict, 1
  {
    var ps := dict.members;
    forall i | 0 <= i < |ps| ensures Admissible(Read(ps[i].value), depth) <==> Accepted(ps[i].value, depth) {
      AdmissibleIffAccepted(ps[i].value, depth);
    }
  }

  /** The compact JSON text of the document, in bytes. */
  function Encoded(document: Json, floatText: real -> string): (bytes: seq<Utf8.Byte>) {
    Utf8.Encode(JsonText.Dumps(document, JsonText.Style(",", ":", floatText)))
  }

  /**
   * When a schema is accepted for a capability: at most 16384 bytes of text, an object at the root where one is
   * asked for, and every dict of it in order.
   */
  lemma DocumentAcceptedIff(document: Json, requireObject: bool, floatText: real -> string)
    requires document.Obj?
    ensures ValidateSchema(document, requireObject, floatText) == Nodewise(Admitted) <==>
      && |Encoded(document, floatText)| <= 16384
      && (requireObject ==> HasType(document.members, "object"))
      && Accepted(document, 0)
    ensures ValidateSchema(document, requireObject, floatText) == TooManyBytes <==>
      |Encoded(document, floatText)| > 16384
    ensures ValidateSchema(document, requireObject, floatText) == RootNotObject <==>
      |Encoded(document, floatText)| <= 16384 && requireObject && !HasType(document.members, "object")
  {
    TypeIff(document.members);
    AdmitIffAdmissible(Read(document), 0);
    AdmissibleIffAccepted(document, 0);
  }
}
