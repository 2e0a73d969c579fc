/** `validate_capability_arguments`: a schema interpreted on a value. */
module Arguments {
  import opened Wrappers
  import opened Json
  import opened Schema
  import Text

  /** The things one schema node can demand of one value, in the order the source checks them. */
  datatype Clause =
    | TypeClause | ConstClause | EnumClause | RequiredClause | ExtraClause
    | MinItemsClause | MaxItemsClause | MinLengthClause | MaxLengthClause | PatternClause
    | MinimumClause | MaximumClause | ExclusiveMinimumClause | ExclusiveMaximumClause

  function Rank(c: Clause): (n: nat) {
    match c
    case TypeClause => 0 case ConstClause => 1 case EnumClause => 2 case RequiredClause => 3 case ExtraClause => 4
    case MinItemsClause => 5 case MaxItemsClause => 6 case MinLengthClause => 7 case MaxLengthClause => 8
    case PatternClause => 9 case MinimumClause => 10 case MaximumClause => 11
    case ExclusiveMinimumClause => 12 case ExclusiveMaximumClause => 13
  }

  /** The fixed words of the message for a broken clause. */
  function Label(c: Clause): (s: string)
    ensures s != []
  {
    match c
    case TypeClause => " expected "
    case ConstClause => " must equal the declared constant"
    case EnumClause => " must be one of the declared enum values"
    case RequiredClause => " missing required: "
    case ExtraClause => " unexpected properties: "
    case MinItemsClause => " must contain at least " case MaxItemsClause => " must contain at most "
    case MinLengthClause => " must contain at least " case MaxLengthClause => " must contain at most "
    case PatternClause => " does not match the declared pattern"
    case MinimumClause => " must be greater than or equal to "
    case MaximumClause => " must be less than or equal to "
    case ExclusiveMinimumClause => " must be greater than "
    case ExclusiveMaximumClause => " must be less than "
  }

  /** What the interpreter takes from outside: `re.search`, and the rest of a message after its fixed words. */
  datatype Env = Env(search: (string, string) -> bool, detail: (Schema, Json, Clause) -> string)

  /** `Fault` is a returned error string; where it arose and why ride along. `Raised` is a Python exception. */
  datatype Outcome = Passed | Fault(text: string, at: seq<Step>, clause: Clause) | Raised

  datatype Local = Clear | Broken(clause: Clause) | Raises

  predicate MatchesJsonType(value: Json, t: JsonType) {
    match t
    case TObject => value.Obj?
    case TArray => value.Arr?
    case TString => value.Str?
    case TInteger => value.Int?
    case TNumber => value.Int? || value.Float?
    case TBoolean => value.Bool?
    case TNull => value.Null?
  }

  predicate OccursAt(part: string, s: string, i: int) {
    0 <= i <= |s| - |part| && s[i..i + |part|] == part
  }

  /** `value in container` of Python; `None` where it raises `TypeError`. */
  function PyIn(value: Json, container: Json): (r: Option<bool>) {
    match container
    case Arr(items) => Some(exists i :: 0 <= i < |items| && PyEq(value, items[i]))
    case Obj(ms) => if value.Arr? || value.Obj? then None else Some(value.Str? && Has(ms, value.s))
    case Str(s) =>
      if !value.Str? then None
      else Some(exists i :: 0 <= i <= |s| && OccursAt(value.s, s, i))
    case _ => None
  }

  /** The elements a `for` over `j or []` visits; `None` where it raises. */
  function Iterated(j: Option<Json>): (r: Option<seq<Json>>) {
    if j.None? || Falsy(j.value) then Some([])
    else match j.value
      case Arr(items) => Some(items)
      case Str(s) => Some(seq(|s|, i requires 0 <= i < |s| => Str([s[i]])))
      case Obj(ms) => Some(seq(|ms|, i requires 0 <= i < |ms| => Str(ms[i].key)))
      case _ => None
  }

  predicate Hashable(j: Json) {
    !j.Arr? && !j.Obj?
  }

  /** `[name for name in required if name not in value]`, then the join of what is missing. */
  function RequiredLocal(required: Option<Json>, members: seq<Member>): (l: Local) {
    match Iterated(required)
    case None => Raises
    case Some(names) =>
      if exists i :: 0 <= i < |names| && !Hashable(names[i]) then Raises
      else if exists i :: 0 <= i < |names| && !names[i].Str? then Raises
      else if exists i :: 0 <= i < |names| && !Has(members, names[i].s) then Broken(RequiredClause)
      else Clear
  }

  predicate Declares(p: Properties, name: string) {
    p.Dict? && HasProperty(p.entries, name)
  }

  /** `set(value) - set(properties)` when the schema is closed. */
  function ExtraLocal(s: Schema, members: seq<Member>): (l: Local)
    requires s.Node?
  {
    if s.kw.additional != Some(Bool(false)) then Clear
    else if s.properties.NotADict? then
      match Iterated(Some(s.properties.raw))
      case None => Raises
      case Some(names) =>
        if exists i :: 0 <= i < |names| && !Hashable(names[i]) then Raises
        else if exists i :: 0 <= i < |members| && Str(members[i].key) !in names then Broken(ExtraClause)
        else Clear
    else if exists i :: 0 <= i < |members| && !Declares(s.properties, members[i].key) then Broken(ExtraClause)
    else Clear
  }

  // What these raise, pass and report on documents that no admission has screened

  predicate Around(s: string, before: string, part: string, after: string) { s == before + part + after }

  /** `in` asks a list for an equal element, a dict for a key, a text for a part; anything else raises. */
  lemma PyInIs(value: Json, container: Json)
    ensures match container
      case Arr(items) => PyIn(value, container) == Some(exists x :: x in items && PyEq(value, x))
      case Obj(ms) => (match value
        case Arr(_) => PyIn(value, container) == None
        case Obj(_) => PyIn(value, container) == None
        case Str(key) => PyIn(value, container) == Some(exists i :: 0 <= i < |ms| && ms[i].key == key)
        case _ => PyIn(value, container) == Some(false))
      case Str(s) => (match value
        case Str(part) => PyIn(value, container) == Some(exists before, after :: Around(s, before, part, after))
        case _ => PyIn(value, container) == None)
      case _ => PyIn(value, container) == None
  {
    match container
    case Arr(items) =>
      if x :| x in items && PyEq(value, x) {
        var i :| 0 <= i < |items| && items[i] == x;
      }
    case Obj(ms) =>
      if value.Str? {
        HasIffMember(ms, value.s);
      }
    case Str(s) =>
      if value.Str? {
        PartIff(s, value.s);
      }
    case _ =>
  }

  lemma PartIff(s: string, part: string)
    ensures (exists i :: 0 <= i <= |s| && OccursAt(part, s, i)) <==>
      exists before, after :: Around(s, before, part, after)
  {
    if i :| 0 <= i <= |s| && OccursAt(part, s, i) {
      assert Around(s, s[..i], part, s[i + |part|..]);
    }
    if before, after :| Around(s, before, part, after) {
      assert s[|before|..|before| + |part|] == part;
      assert OccursAt(part, s, |before|);
    }
  }

  predicate Lacks(members: seq<Member>, name: string) { forall i :: 0 <= i < |members| ==> members[i].key != name }

  lemma LacksIff(members: seq<Member>, name: string)
    ensures Lacks(members, name) <==> !Has(members, name)
  {
    HasIffMember(members, name);
  }

  /** A `required` of any kind: a list of names, a text read letter by letter, a dict read key by key. */
  lemma RequiredIs(required: Option<Json>, members: seq<Member>)
    ensures var l := RequiredLocal(required, members);
      match required
      case Some(Arr(names)) =>
        && (l == Raises <==> exists i :: 0 <= i < |names| && !names[i].Str?)
        && (l != Raises ==>
              (l == Broken(RequiredClause) <==> exists i :: 0 <= i < |names| && Lacks(members, names[i].s)))
        && (l == Raises || l == Clear || l == Broken(RequiredClause))
      case Some(Str(s)) =>
        l == if exists i :: 0 <= i < |s| && Lacks(members, [s[i]]) then Broken(RequiredClause) else Clear
      case Some(Obj(keys)) =>
        l == if exists i :: 0 <= i < |keys| && Lacks(members, keys[i].key) then Broken(RequiredClause) else Clear
      case Some(Bool(b)) => l == if b then Raises else Clear
      case Some(Int(n)) => l == if n != 0 then Raises else Clear
      case Some(Float(f)) => l == if f != 0.0 then Raises else Clear
      case _ => l == Clear
  {
    forall name ensures Lacks(members, name) <==> !Has(members, name) {
      LacksIff(members, name);
    }
    match required
    case Some(Str(s)) => Letters(s);
    case Some(Obj(keys)) => KeysIterated(keys);
    case _ =>
  }

  /** The keys a closed schema allows when its `properties` is not a dict: what iterating it yields. */
  lemma ExtraIs(s: Schema, members: seq<Member>)
    requires s.Node?
    ensures var l := ExtraLocal(s, members);
      if s.kw.additional != Some(Bool(false)) then l == Clear
      else match s.properties
        case NoProperties => l == if members != [] then Broken(ExtraClause) else Clear
        case Dict(entries) =>
          l == if exists i :: 0 <= i < |members| && !HasProperty(entries, members[i].key) then Broken(ExtraClause)
               else Clear
        case NotADict(raw) => (match raw
          case Arr(names) =>
            && (l == Raises <==> exists k :: 0 <= k < |names| && (names[k].Arr? || names[k].Obj?))
            && (l == Broken(ExtraClause) <==>
                  && (forall k :: 0 <= k < |names| ==> !names[k].Arr? && !names[k].Obj?)
                  && exists i :: 0 <= i < |members| && Str(members[i].key) !in names)
          case Null => l == if members != [] then Broken(ExtraClause) else Clear
          case Bool(b) => l == if b then Raises else if members != [] then Broken(ExtraClause) else Clear
          case Int(n) => l == if n != 0 then Raises else if members != [] then Broken(ExtraClause) else Clear
          case Float(f) => l == if f != 0.0 then Raises else if members != [] then Broken(ExtraClause) else Clear
          case _ => true)
  {
    assert members != [] ==> Str(members[0].key) !in [] && !HasProperty([], members[0].key);
    assert s.properties.NoProperties? && members != [] ==> !Declares(s.properties, members[0].key);
  }

  lemma Letters(s: string)
    ensures var names := Iterated(Some(Str(s)));
      names.Some? && |names.value| == |s| && forall i :: 0 <= i < |s| ==> names.value[i] == Str([s[i]])
  {
  }

  lemma KeysIterated(keys: seq<Member>)
    ensures var names := Iterated(Some(Obj(keys)));
      names.Some? && |names.value| == |keys| && forall i :: 0 <= i < |keys| ==> names.value[i] == Str(keys[i].key)
  {
  }

  /** `isinstance(bound, int)`: a JSON boolean is one too. */
  function IntBound(k: Option<Json>): (r: Option<int>) {
    match k
    case Some(Int(i)) => Some(i)
    case Some(Bool(b)) => Some(if b then 1 else 0)
    case _ => None
  }

  function NumberBound(k: Option<Json>): (r: Option<real>) {
    match k
    case None => None
    case Some(j) => NumberOf(j)
  }

  function SizeLocal(n: nat, least: Option<int>, most: Option<int>, low: Clause, high: Clause): (l: Local) {
    if least.Some? && n < least.value then Broken(low)
    else if most.Some? && n > most.value then Broken(high)
    else Clear
  }

  function StringLocal(env: Env, s: Schema, text: string): (l: Local)
    requires s.Node?
  {
    var size := SizeLocal(|text|, IntBound(s.kw.minLength), IntBound(s.kw.maxLength), MinLengthClause, MaxLengthClause);
    if size != Clear then size
    else match s.kw.pattern
      case Some(Str(pattern)) => if env.search(pattern, text) then Clear else Broken(PatternClause)
      case _ => Clear
  }

  function NumberLocal(s: Schema, x: real): (l: Local)
    requires s.Node?
  {
    var least, most := NumberBound(s.kw.minimum), NumberBound(s.kw.maximum);
    var above, below := NumberBound(s.kw.exclusiveMinimum), NumberBound(s.kw.exclusiveMaximum);
    if least.Some? && x < least.value then Broken(MinimumClause)
    else if most.Some? && x > most.value then Broken(MaximumClause)
    else if above.Some? && x <= above.value then Broken(ExclusiveMinimumClause)
    else if below.Some? && x >= below.value then Broken(ExclusiveMaximumClause)
    else Clear
  }

  /** Everything the node itself checks, before any nested call. */
  function LocalCheck(env: Env, s: Schema, value: Json): (l: Local)
    requires s.Node?
  {
    var kw := s.kw;
    if kw.expected.Foreign? then Raises
    else if kw.expected.Typed? && !MatchesJsonType(value, kw.expected.t) then Broken(TypeClause)
    else if kw.constant.Some? && !PyEq(value, kw.constant.value) then Broken(ConstClause)
    else if kw.enum.Some? && PyIn(value, kw.enum.value).None? then Raises
    else if kw.enum.Some? && !PyIn(value, kw.enum.value).value then Broken(EnumClause)
    else match kw.expected
      case Typed(TObject) =>
        var required := RequiredLocal(kw.required, value.members);
        if required != Clear then required else ExtraLocal(s, value.members)
      case Typed(TArray) =>
        SizeLocal(|value.items|, IntBound(kw.minItems), IntBound(kw.maxItems), MinItemsClause, MaxItemsClause)
      case Typed(TString) => StringLocal(env, s, value.s)
      case Typed(TInteger) => NumberLocal(s, NumberOf(value).value)
      case Typed(TNumber) => NumberLocal(s, NumberOf(value).value)
      case _ => Clear
  }

  /** `validate_capability_arguments`. */
  function Validate(env: Env, s: Schema, value: Json, path: string): (r: Outcome)
    decreases s, 0
  {
    if s.NotASchema? then Raised
    else match LocalCheck(env, s, value)
      case Raises => Raised
      case Broken(c) => Fault(path + Label(c) + env.detail(s, value, c), [], c)
      case Clear =>
        if s.kw.expected == Typed(TObject) then
          match s.properties
          case NoProperties => Passed
          case NotADict(raw) => if Falsy(raw) then Passed else Raised
          case Dict(entries) => ValidateProperties(env, entries, 0, value.members, path)
        else if s.kw.expected == Typed(TArray) && s.items.Each? then
          ValidateItems(env, s.items.schema, value.items, 0, path)
        else Passed
  }

  function PropertyPath(path: string, name: string): (s: string) { path + "." + name }

  function ItemPath(path: string, i: nat): (s: string) { path + "[" + Text.NatText(i) + "]" }

  function ValidateProperties(env: Env, entries: seq<Property>, i: nat, members: seq<Member>, path: string)
    : (r: Outcome)
    requires i <= |entries|
    decreases entries, |entries| - i
  {
    if i == |entries| then Passed
    else if !Has(members, entries[i].name) then ValidateProperties(env, entries, i + 1, members, path)
    else
      var name := entries[i].name;
      var error := Validate(env, entries[i].schema, Get(members, name), PropertyPath(path, name));
      match error
      case Raised => Raised
      case Fault(text, at, c) =>
        if text != "" then Fault(text, [Key(name)] + at, c) else ValidateProperties(env, entries, i + 1, members, path)
      case Passed => ValidateProperties(env, entries, i + 1, members, path)
  }

  function ValidateItems(env: Env, s: Schema, items: seq<Json>, i: nat, path: string): (r: Outcome)
    requires i <= |items|
    decreases s, 1, |items| - i
  {
    if i == |items| then Passed
    else
      var error := Validate(env, s, items[i], ItemPath(path, i));
      match error
      case Raised => Raised
      case Fault(text, at, c) =>
        if text != "" then Fault(text, [Index(i)] + at, c) else ValidateItems(env, s, items, i + 1, path)
      case Passed => ValidateItems(env, s, items, i + 1, path)
  }

  /** The checks every type has are passed. */
  predicate ValuePassed(s: Schema, value: Json) {
    && s.Node?
    && s.kw.expected.Typed? && MatchesJsonType(value, s.kw.expected.t)
    && (s.kw.constant.Some? ==> PyEq(value, s.kw.constant.value))
    && (s.kw.enum.Some? ==> PyIn(value, s.kw.enum.value) == Some(true))
  }

  /** The recursive method with its early-return loops, proved to compute `Validate`. */
  method ValidateCapabilityArguments(env: Env, s: Schema, value: Json, path: string) returns (r: Outcome)
    ensures r == Validate(env, s, value, path)
    decreases s, 1
  {
    if s.NotASchema? { return Raised; }
    var kw := s.kw;
    if kw.expected.Foreign? { return Raised; }
    if kw.expected.Typed? && !MatchesJsonType(value, kw.expected.t) {
      return Fault(path + " expected " + env.detail(s, value, TypeClause), [], TypeClause);
    }
    if kw.constant.Some? && !PyEq(value, kw.constant.value) {
      return Fault(path + " must equal the declared constant" + env.detail(s, value, ConstClause), [], ConstClause);
    }
    if kw.enum.Some? {
      var member := PyIn(value, kw.enum.value);
      if member.None? { return Raised; }
      if !member.value {
        return Fault(path + " must be one of the declared enum values" + env.detail(s, value, EnumClause),
                     [], EnumClause);
      }
    }
    match kw.expected {
      case Typed(TObject) =>
        r := ValidateObject(env, s, value, path);
      case Typed(TArray) =>
        r := ValidateArray(env, s, value, path);
      case Typed(TString) =>
        r := ValidateText(env, s, value, path);
      case Typed(TInteger) => r := ValidateNumber(env, s, value, path);
      case Typed(TNumber) => r := ValidateNumber(env, s, value, path);
      case _ => r := Passed;
    }
  }

  /** The length of a text, then the pattern. */
  method ValidateText(env: Env, s: Schema, value: Json, path: string) returns (r: Outcome)
    requires ValuePassed(s, value) && s.kw.expected == Typed(TString)
    ensures r == Validate(env, s, value, path)
  {
    var least, most := IntBound(s.kw.minLength), IntBound(s.kw.maxLength);
    if least.Some? && |value.s| < least.value {
      return Fault(path + " must contain at least " + env.detail(s, value, MinLengthClause), [], MinLengthClause);
    }
    if most.Some? && |value.s| > most.value {
      return Fault(path + " must contain at most " + env.detail(s, value, MaxLengthClause), [], MaxLengthClause);
    }
    if s.kw.pattern.Some? && s.kw.pattern.value.Str? && !env.search(s.kw.pattern.value.s, value.s) {
      return Fault(path + " does not match the declared pattern" + env.detail(s, value, PatternClause),
                   [], PatternClause);
    }
    return Passed;
  }

  /** The bounds of a number, checked in order. */
  method ValidateNumber(env: Env, s: Schema, value: Json, path: string) returns (r: Outcome)
    requires ValuePassed(s, value) && s.kw.expected in {Typed(TInteger), Typed(TNumber)}
    ensures r == Validate(env, s, value, path)
  {
    var x := if value.Int? then value.i as real else value.f;
    var minimum, maximum := NumberBound(s.kw.minimum), NumberBound(s.kw.maximum);
    var above, below := NumberBound(s.kw.exclusiveMinimum), NumberBound(s.kw.exclusiveMaximum);
    if minimum.Some? && x < minimum.value {
      return Fault(path + " must be greater than or equal to " + env.detail(s, value, MinimumClause),
                   [], MinimumClause);
    }
    if maximum.Some? && x > maximum.value {
      return Fault(path + " must be less than or equal to " + env.detail(s, value, MaximumClause), [], MaximumClause);
    }
    if above.Some? && x <= above.value {
      return Fault(path + " must be greater than " + env.detail(s, value, ExclusiveMinimumClause),
                   [], ExclusiveMinimumClause);
    }
    if below.Some? && x >= below.value {
      return Fault(path + " must be less than " + env.detail(s, value, ExclusiveMaximumClause),
                   [], ExclusiveMaximumClause);
    }
    return Passed;
  }

  /** A dict: what is missing, what is too much, then each property's own schema. */
  method ValidateObject(env: Env, s: Schema, value: Json, path: string) returns (r: Outcome)
    requires ValuePassed(s, value) && s.kw.expected == Typed(TObject)
    ensures r == Validate(env, s, value, path)
    decreases s, 0
  {
    var required := RequiredLocal(s.kw.required, value.members);
    if required.Raises? { return Raised; }
    if required.Broken? {
      return Fault(path + " missing required: " + env.detail(s, value, RequiredClause), [], RequiredClause);
    }
    var extra := ExtraLocal(s, value.members);
    if extra.Raises? { return Raised; }
    if extra.Broken? {
      return Fault(path + " unexpected properties: " + env.detail(s, value, ExtraClause), [], ExtraClause);
    }
    if s.properties.NotADict? && !Falsy(s.properties.raw) { return Raised; }
    if s.properties.Dict? {
      var entries := s.properties.entries;
      for i := 0 to |entries|
        invariant ValidateProperties(env, entries, 0, value.members, path) ==
                  ValidateProperties(env, entries, i, value.members, path)
      {
        var name := entries[i].name;
        if Has(value.members, name) {
          var error := ValidateCapabilityArguments(env, entries[i].schema, Get(value.members, name), path + "." + name);
          if error.Raised? { return Raised; }
          if error.Fault? && error.text != "" { return Fault(error.text, [Key(name)] + error.at, error.clause); }
        }
      }
    }
    return Passed;
  }

  /** A list: its size, then each item. */
  method ValidateArray(env: Env, s: Schema, value: Json, path: string) returns (r: Outcome)
    requires ValuePassed(s, value) && s.kw.expected == Typed(TArray)
    ensures r == Validate(env, s, value, path)
    decreases s, 0
  {
    var least, most := IntBound(s.kw.minItems), IntBound(s.kw.maxItems);
    if least.Some? && |value.items| < least.value {
      return Fault(path + " must contain at least " + env.detail(s, value, MinItemsClause), [], MinItemsClause);
    }
    if most.Some? && |value.items| > most.value {
      return Fault(path + " must contain at most " + env.detail(s, value, MaxItemsClause), [], MaxItemsClause);
    }
    if s.items.Each? {
      for i := 0 to |value.items|
        invariant ValidateItems(env, s.items.schema, value.items, 0, path) ==
                  ValidateItems(env, s.items.schema, value.items, i, path)
      {
        var error := ValidateCapabilityArguments(
          env, s.items.schema, value.items[i], path + "[" + Text.NatText(i) + "]");
        if error.Raised? { return Raised; }
        if error.Fault? && error.text != "" { return Fault(error.text, [Index(i)] + error.at, error.clause); }
      }
    }
    return Passed;
  }
}
