/** Capability schemas: their keywords, and the pass that admits a schema before any value is checked against it. */
module Schema {
  import opened Wrappers
  import opened Json

  const MAX_SCHEMA_DEPTH: nat := 8
  const MAX_SCHEMA_PROPERTIES: nat := 64
  const MAX_SCHEMA_ENUM_VALUES: nat := 64

  datatype JsonType = TObject | TArray | TString | TInteger | TNumber | TBoolean | TNull

  /** What `type` says. `Foreign` is a value that names no type; an absent or null `type` is `Untyped`. */
  datatype Expected = Untyped | Typed(t: JsonType) | Foreign(raw: Json)

  /** A schema dict by its keyword lookups: `None` is an absent key, `Some(Null)` an explicit null. */
  datatype Keywords = Keywords(
    unknown: set<string>, expected: Expected, description: Option<Json>, constant: Option<Json>,
    enum: Option<Json>, required: Option<Json>, additional: Option<Json>,
    minItems: Option<Json>, maxItems: Option<Json>, minLength: Option<Json>, maxLength: Option<Json>,
    pattern: Option<Json>, minimum: Option<Json>, maximum: Option<Json>,
    exclusiveMinimum: Option<Json>, exclusiveMaximum: Option<Json>)

  datatype Schema = NotASchema(raw: Json) | Node(kw: Keywords, properties: Properties, items: Items)
  datatype Properties = NoProperties | NotADict(raw: Json) | Dict(entries: seq<Property>)
  datatype Property = Property(name: string, schema: Schema)
  datatype Items = NoItems | Each(schema: Schema)

  // Reading a schema document

  function Lookup(ms: seq<Member>, key: string): (r: Option<Json>) {
    if Has(ms, key) then Some(Get(ms, key)) else None
  }

  function ReadType(ms: seq<Member>): (e: Expected) {
    match Given(ms, "type")
    case None => Untyped
    case Some(j) =>
      if j == Str("object") then Typed(TObject)
      else if j == Str("array") then Typed(TArray)
      else if j == Str("string") then Typed(TString)
      else if j == Str("integer") then Typed(TInteger)
      else if j == Str("number") then Typed(TNumber)
      else if j == Str("boolean") then Typed(TBoolean)
      else if j == Str("null") then Typed(TNull)
      else Foreign(j)
  }

  const SCHEMA_KEYS: set<string> := {
    "type", "description", "properties", "required", "additionalProperties", "items", "enum", "const",
    "minimum", "maximum", "exclusiveMinimum", "exclusiveMaximum", "minLength", "maxLength",
    "minItems", "maxItems", "pattern", "format", "default"
  }

  function ReadKeywords(ms: seq<Member>): (k: Keywords) {
    Keywords(
      set i | 0 <= i < |ms| && ms[i].key !in SCHEMA_KEYS :: ms[i].key,
      ReadType(ms), Lookup(ms, "description"), Lookup(ms, "const"), Lookup(ms, "enum"), Lookup(ms, "required"),
      Lookup(ms, "additionalProperties"), Lookup(ms, "minItems"), Lookup(ms, "maxItems"), Lookup(ms, "minLength"),
      Lookup(ms, "maxLength"), Lookup(ms, "pattern"), Lookup(ms, "minimum"), Lookup(ms, "maximum"),
      Lookup(ms, "exclusiveMinimum"), Lookup(ms, "exclusiveMaximum"))
  }

  function Read(j: Json): (s: Schema) {
    match j
    case Obj(ms) =>
      var properties :=
        match Given(ms, "properties")
        case None => NoProperties
        case Some(Obj(ps)) => Dict(seq(|ps|, i requires 0 <= i < |ps| => Property(ps[i].key, Read(ps[i].value))))
        case Some(raw) => NotADict(raw);
      var items := match Given(ms, "items") case None => NoItems case Some(child) => Each(Read(child));
      Node(ReadKeywords(ms), properties, items)
    case _ => NotASchema(j)
  }

  // The admission pass

  datatype Rule =
    | NotAnObject | TooDeep | UnknownKeyword | UnsupportedType | BadDescription | BadEnum | EnumTooLong
    | PropertiesNeedObject | TooManyProperties | BadPropertyName
    | BadRequired | DuplicateRequired | UndeclaredRequired | BadAdditional | ItemsNeedArray

  /** `Crashed` is a raise other than the `ValueError` the caller handles: an unhashable `type`. */
  datatype Verdict = Admitted | Refused(rule: Rule) | Crashed

  predicate IsGiven(k: Option<Json>) {
    k.Some? && !k.value.Null?
  }

  predicate HasProperty(entries: seq<Property>, name: string) {
    exists i :: 0 <= i < |entries| && entries[i].name == name
  }

  /** The checks of one node before its `properties` are entered. */
  function HeadVerdict(s: Schema, depth: nat): (v: Verdict) {
    if s.NotASchema? then Refused(NotAnObject)
    else if depth > MAX_SCHEMA_DEPTH then Refused(TooDeep)
    else
      var kw := s.kw;
      if kw.unknown != {} then Refused(UnknownKeyword)
      else if kw.expected.Foreign? then
        if kw.expected.raw.Arr? || kw.expected.raw.Obj? then Crashed else Refused(UnsupportedType)
      else if IsGiven(kw.description) && !(kw.description.value.Str? && |kw.description.value.s| <= 256) then
        Refused(BadDescription)
      else if IsGiven(kw.enum) && !(kw.enum.value.Arr? && kw.enum.value.items != []) then Refused(BadEnum)
      else if IsGiven(kw.enum) && |kw.enum.value.items| > MAX_SCHEMA_ENUM_VALUES then Refused(EnumTooLong)
      else if s.properties.NotADict? || (s.properties.Dict? && kw.expected != Typed(TObject)) then
        Refused(PropertiesNeedObject)
      else if s.properties.Dict? && |s.properties.entries| > MAX_SCHEMA_PROPERTIES then Refused(TooManyProperties)
      else Admitted
  }

  /** The checks of one node between its `properties` and its `items`. */
  function TailVerdict(s: Schema): (v: Verdict)
    requires s.Node?
  {
    var required := s.kw.required;
    if IsGiven(required)
      && (!required.value.Arr?
          || exists i :: 0 <= i < |required.value.items| && !required.value.items[i].Str?) then Refused(BadRequired)
    else if IsGiven(required)
      && (exists i, j :: 0 <= i < j < |required.value.items| && required.value.items[i] == required.value.items[j]) then
      Refused(DuplicateRequired)
    else if IsGiven(required)
      && (!s.properties.Dict?
          || exists i :: 0 <= i < |required.value.items|
               && !HasProperty(s.properties.entries, required.value.items[i].s)) then Refused(UndeclaredRequired)
    else if IsGiven(s.kw.additional) && !s.kw.additional.value.Bool? then Refused(BadAdditional)
    else if s.items.Each? && s.kw.expected != Typed(TArray) then Refused(ItemsNeedArray)
    else Admitted
  }

  /** `_validate_schema_node`. */
  function Admit(s: Schema, depth: nat): (v: Verdict)
    decreases s
  {
    if HeadVerdict(s, depth) != Admitted then HeadVerdict(s, depth)
    else
      var children := if s.properties.Dict? then AdmitFrom(s.properties.entries, 0, depth + 1) else Admitted;
      if children != Admitted then children
      else if TailVerdict(s) != Admitted then TailVerdict(s)
      else if s.items.Each? then Admit(s.items.schema, depth + 1)
      else Admitted
  }

  function AdmitFrom(entries: seq<Property>, i: nat, depth: nat): (v: Verdict)
    requires i <= |entries|
    decreases entries, |entries| - i
  {
    if i == |entries| then Admitted
    else if entries[i].name == [] || |entries[i].name| > 128 then Refused(BadPropertyName)
    else
      var child := Admit(entries[i].schema, depth);
      if child != Admitted then child else AdmitFrom(entries, i + 1, depth)
  }

  /** The early-return loop of the source, proved to compute `Admit`. */
  method ValidateSchemaNode(s: Schema, depth: nat) returns (v: Verdict)
    ensures v == Admit(s, depth)
    decreases s
  {
    if s.NotASchema? { return Refused(NotAnObject); }
    if depth > 8 { return Refused(TooDeep); }
    var kw := s.kw;
    if kw.unknown != {} { return Refused(UnknownKeyword); }
    if kw.expected.Foreign? {
      if kw.expected.raw.Arr? || kw.expected.raw.Obj? { return Crashed; }
      return Refused(UnsupportedType);
    }
    if IsGiven(kw.description) {
      if !kw.description.value.Str? || |kw.description.value.s| > 256 { return Refused(BadDescription); }
    }
    if IsGiven(kw.enum) {
      if !kw.enum.value.Arr? || kw.enum.value.items == [] { return Refused(BadEnum); }
      if |kw.enum.value.items| > 64 { return Refused(EnumTooLong); }
    }
    if !s.properties.NoProperties? {
      if kw.expected != Typed(TObject) || s.properties.NotADict? { return Refused(PropertiesNeedObject); }
      var entries := s.properties.entries;
      if |entries| > 64 { return Refused(TooManyProperties); }
      for i := 0 to |entries|
        invariant AdmitFrom(entries, 0, depth + 1) == AdmitFrom(entries, i, depth + 1)
      {
        if entries[i].name == [] || |entries[i].name| > 128 { return Refused(BadPropertyName); }
        v := ValidateSchemaNode(entries[i].schema, depth + 1);
        if v != Admitted { return; }
      }
    }
    if IsGiven(kw.required) {
      var required := kw.required.value;
      if !required.Arr? || exists i :: 0 <= i < |required.items| && !required.items[i].Str? {
        return Refused(BadRequired);
      }
      if exists i, j :: 0 <= i < j < |required.items| && required.items[i] == required.items[j] {
        return Refused(DuplicateRequired);
      }
      if s.properties.NoProperties?
        || exists i :: 0 <= i < |required.items| && !HasProperty(s.properties.entries, required.items[i].s)
      {
        return Refused(UndeclaredRequired);
      }
    }
    if IsGiven(kw.additional) && !kw.additional.value.Bool? { return Refused(BadAdditional); }
    if s.items.Each? {
      if kw.expected != Typed(TArray) { return Refused(ItemsNeedArray); }
      v := ValidateSchemaNode(s.items.schema, depth + 1);
      return;
    }
    return Admitted;
  }

  predicate DeclaredNames(names: seq<Json>, entries: seq<Property>) {
    && (forall i :: 0 <= i < |names| ==> names[i].Str? && HasProperty(entries, names[i].s))
    && (forall i, j :: 0 <= i < j < |names| ==> names[i] != names[j])
  }

  /** What admission promises of one node, child schemas aside. */
  predicate NodeShape(s: Schema) {
    s.Node?
    && s.kw.unknown == {}
    && !s.kw.expected.Foreign?
    && (IsGiven(s.kw.description) ==> s.kw.description.value.Str? && |s.kw.description.value.s| <= 256)
    && (IsGiven(s.kw.enum) ==> s.kw.enum.value.Arr? && 1 <= |s.kw.enum.value.items| <= MAX_SCHEMA_ENUM_VALUES)
    && !s.properties.NotADict?
    && (s.properties.Dict? ==>
          && s.kw.expected == Typed(TObject)
          && |s.properties.entries| <= MAX_SCHEMA_PROPERTIES
          && forall i :: 0 <= i < |s.properties.entries| ==> 1 <= |s.properties.entries[i].name| <= 128)
    && (IsGiven(s.kw.required) ==>
          && s.kw.required.value.Arr?
          && s.properties.Dict?
          && DeclaredNames(s.kw.required.value.items, s.properties.entries))
    && (IsGiven(s.kw.additional) ==> s.kw.additional.value.Bool?)
    && (s.items.Each? ==> s.kw.expected == Typed(TArray))
  }

  /** A schema whose every node has the shape above, none deeper than the limit. */
  predicate Admissible(s: Schema, depth: nat)
    decreases s
  {
    && depth <= MAX_SCHEMA_DEPTH
    && NodeShape(s)
    && (s.properties.Dict? ==>
          forall i :: 0 <= i < |s.properties.entries| ==> Admissible(s.properties.entries[i].schema, depth + 1))
    && (s.items.Each? ==> Admissible(s.items.schema, depth + 1))
  }

  /** The admission pass accepts exactly the admissible schemas. */
  lemma {:induction false} AdmitIffAdmissible(s: Schema, depth: nat)
    ensures Admit(s, depth) == Admitted <==> Admissible(s, depth)
    decreases s
  {
    if s.Node? {
      if s.properties.Dict? {
        AdmitFromIff(s.properties.entries, 0, depth + 1);
      }
      if s.items.Each? {
        AdmitIffAdmissible(s.items.schema, depth + 1);
      }
    }
  }

  lemma {:induction false} AdmitFromIff(entries: seq<Property>, i: nat, depth: nat)
    requires i <= |entries|
    ensures AdmitFrom(entries, i, depth) == Admitted <==>
      forall k :: i <= k < |entries| ==> 1 <= |entries[k].name| <= 128 && Admissible(entries[k].schema, depth)
    decreases entries, |entries| - i
  {
    if i < |entries| {
      AdmitIffAdmissible(entries[i].schema, depth);
      AdmitFromIff(entries, i + 1, depth);
    }
  }

  // How large an admitted schema can be

  /** The schemas in the tree: the node itself, its properties' and its items'. */
  function Nodes(s: Schema): (n: nat)
    decreases s
  {
    if s.NotASchema? then 1
    else
      1 + (if s.properties.Dict? then NodesFrom(s.properties.entries, 0) else 0)
        + (if s.items.Each? then Nodes(s.items.schema) else 0)
  }

  function NodesFrom(entries: seq<Property>, i: nat): (n: nat)
    requires i <= |entries|
    decreases entries, |entries| - i
  {
    if i == |entries| then 0 else Nodes(entries[i].schema) + NodesFrom(entries, i + 1)
  }

  /** The size of a full 64-ary tree of the given height. */
  function Budget(height: nat): (n: nat) {
    if height == 0 then 0 else 1 + MAX_SCHEMA_PROPERTIES * Budget(height - 1)
  }

  lemma {:induction false} NodesWithinBudget(s: Schema, depth: nat)
    requires Admissible(s, depth)
    ensures Nodes(s) <= Budget(MAX_SCHEMA_DEPTH + 1 - depth)
    decreases s
  {
    // `properties` needs type=object and `items` needs type=array, so at most one of them has nodes.
    var below := Budget(MAX_SCHEMA_DEPTH - depth);
    if s.properties.Dict? {
      var n := |s.properties.entries|;
      NodesFromWithinBudget(s.properties.entries, 0, depth + 1);
      Scale(n, MAX_SCHEMA_PROPERTIES, below);
    } else if s.items.Each? {
      NodesWithinBudget(s.items.schema, depth + 1);
    }
  }

  lemma Scale(m: nat, n: nat, b: nat)
    requires m <= n
    ensures m * b <= n * b
  {
  }

  lemma OneMore(n: nat, b: nat)
    requires n >= 1
    ensures n * b == b + (n - 1) * b
  {
  }

  lemma {:induction false} NodesFromWithinBudget(entries: seq<Property>, i: nat, depth: nat)
    requires i <= |entries| && depth <= MAX_SCHEMA_DEPTH + 1
    requires forall k :: i <= k < |entries| ==> Admissible(entries[k].schema, depth)
    ensures NodesFrom(entries, i) <= (|entries| - i) * Budget(MAX_SCHEMA_DEPTH + 1 - depth)
    decreases entries, |entries| - i
  {
    if i < |entries| {
      NodesWithinBudget(entries[i].schema, depth);
      NodesFromWithinBudget(entries, i + 1, depth);
      OneMore(|entries| - i, Budget(MAX_SCHEMA_DEPTH + 1 - depth));
    }
  }

  /** An admitted schema has at most (64^9 - 1) / 63 nodes. */
  lemma AdmittedSchemaIsBounded(s: Schema)
    requires Admit(s, 0) == Admitted
    ensures 63 * Nodes(s) <= 64 * 64 * 64 * 64 * 64 * 64 * 64 * 64 * 64 - 1
  {
    AdmitIffAdmissible(s, 0);
    NodesWithinBudget(s, 0);
    BudgetClosedForm();
  }

  lemma BudgetClosedForm()
    ensures 63 * Budget(9) == 64 * 64 * 64 * 64 * 64 * 64 * 64 * 64 * 64 - 1
  {
    assert Budget(3) == 1 + 64 * Budget(2);
    assert Budget(5) == 1 + 64 * Budget(4);
    assert Budget(7) == 1 + 64 * Budget(6);
  }
}
