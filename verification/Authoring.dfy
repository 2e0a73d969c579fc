/** Authored fields: writing them into a genome, reading them back, and building a genome from a draft. */
module PersonaAuthoring {
  import opened Wrappers
  import opened Persona
  import Json

  datatype Field =
    | Archetype | SelfConcept | Values | Boundaries | CharacterPortrait | Traits | RelationshipNarrative
    | SafetyBoundaries | VoicePortrait | BehaviorGuidance | DialogueExamples | ModalityNotes

  datatype FieldValue =
    | Text(s: string) | List(xs: seq<string>) | Notes(m: map<string, string>) | Coordinates(t: map<string, Trait>)

  const ALL_FIELDS: set<Field> := {
    Archetype, SelfConcept, Values, Boundaries, CharacterPortrait, Traits, RelationshipNarrative,
    SafetyBoundaries, VoicePortrait, BehaviorGuidance, DialogueExamples, ModalityNotes
  }

  lemma AllFields(f: Field)
    ensures f in ALL_FIELDS
  {
  }

  /** The fields a person set, and nothing about those they left alone. */
  type Authored = map<Field, FieldValue>

  predicate Fits(f: Field, v: FieldValue) {
    match f
    case Archetype => v.Text? case SelfConcept => v.Text? case CharacterPortrait => v.Text?
    case RelationshipNarrative => v.Text? case VoicePortrait => v.Text?
    case Traits => v.Coordinates? && ValidTraits(v.t)
    case ModalityNotes => v.Notes?
    case _ => v.List?
  }

  predicate WellTyped(a: Authored) {
    forall f :: f in a ==> Fits(f, a[f])
  }

  function Stripped(v: FieldValue): (r: FieldValue) {
    if v.Text? then Text(Trim(v.s)) else v
  }

  /** What is stored for a value a person supplied: a text without its outer whitespace, anything else as it is. */
  ghost predicate Stores(v: FieldValue, stored: FieldValue) {
    if v.Text? then stored.Text? && IsStripped(v.s, stored.s) else stored == v
  }

  lemma StoresIff(v: FieldValue, stored: FieldValue)
    ensures Stores(v, stored) <==> stored == Stripped(v)
  {
    if v.Text? && stored.Text? {
      TrimIff(v.s, stored.s);
    }
  }

  function StrippedFields(a: Authored): (r: Authored) {
    map f | f in a :: Stripped(a[f])
  }

  // The dumped genome, as far as authoring can reach into it

  datatype Section = InConstitution | InCharacter | InRelationship | InExpression

  datatype Key =
    | KArchetype | KSelfConcept | KValues | KBoundaries | KPortrait | KTraits | KNarrative | KSafetyBoundaries
    | KVoicePortrait | KBehaviorGuidance | KDialogueExamples | KModalityNotes

  /** The `paths` table. */
  function PathOf(f: Field): (p: (Section, Key)) {
    match f
    case Archetype => (InConstitution, KArchetype)
    case SelfConcept => (InConstitution, KSelfConcept)
    case Values => (InConstitution, KValues)
    case Boundaries => (InConstitution, KBoundaries)
    case CharacterPortrait => (InCharacter, KPortrait)
    case Traits => (InCharacter, KTraits)
    case RelationshipNarrative => (InRelationship, KNarrative)
    case SafetyBoundaries => (InRelationship, KSafetyBoundaries)
    case VoicePortrait => (InExpression, KVoicePortrait)
    case BehaviorGuidance => (InExpression, KBehaviorGuidance)
    case DialogueExamples => (InExpression, KDialogueExamples)
    case ModalityNotes => (InExpression, KModalityNotes)
  }

  type Payload = map<(Section, Key), FieldValue>

  function Dump(g: Genome): (p: Payload) {
    map[
      (InConstitution, KArchetype) := Text(g.constitution.archetype),
      (InConstitution, KSelfConcept) := Text(g.constitution.selfConcept),
      (InConstitution, KValues) := List(g.constitution.values),
      (InConstitution, KBoundaries) := List(g.constitution.boundaries),
      (InCharacter, KPortrait) := Text(g.character.portrait),
      (InCharacter, KTraits) := Coordinates(g.character.traits),
      (InRelationship, KNarrative) := Text(g.relationship.narrative),
      (InRelationship, KSafetyBoundaries) := List(g.relationship.safetyBoundaries),
      (InExpression, KVoicePortrait) := Text(g.expression.voicePortrait),
      (InExpression, KBehaviorGuidance) := List(g.expression.behaviorGuidance),
      (InExpression, KDialogueExamples) := List(g.expression.dialogueExamples),
      (InExpression, KModalityNotes) := Notes(g.expression.modalityNotes)
    ]
  }

  predicate Loadable(p: Payload) {
    forall f: Field :: PathOf(f) in p && Fits(f, p[PathOf(f)])
  }

  /** `model_validate` of the edited payload: the slots above from `p`, all else as dumped from `base`. */
  function Load(base: Genome, p: Payload): (g: Genome)
    requires Loadable(p)
  {
    base.(
      constitution := base.constitution.(
        archetype := At(p, Archetype).s, selfConcept := At(p, SelfConcept).s,
        values := At(p, Values).xs, boundaries := At(p, Boundaries).xs),
      character := base.character.(portrait := At(p, CharacterPortrait).s, traits := At(p, Traits).t),
      relationship := base.relationship.(
        narrative := At(p, RelationshipNarrative).s, safetyBoundaries := At(p, SafetyBoundaries).xs),
      expression := base.expression.(
        voicePortrait := At(p, VoicePortrait).s, behaviorGuidance := At(p, BehaviorGuidance).xs,
        dialogueExamples := At(p, DialogueExamples).xs, modalityNotes := At(p, ModalityNotes).m))
  }

  function At(p: Payload, f: Field): (v: FieldValue)
    requires Loadable(p)
    ensures Fits(f, v)
  {
    p[PathOf(f)]
  }

  /** `persona_authoring_of`, field by field. */
  function FieldOf(g: Genome, f: Field): (v: FieldValue) {
    match f
    case Archetype => Text(g.constitution.archetype)
    case SelfConcept => Text(g.constitution.selfConcept)
    case Values => List(g.constitution.values)
    case Boundaries => List(g.constitution.boundaries)
    case CharacterPortrait => Text(g.character.portrait)
    case Traits => Coordinates(g.character.traits)
    case RelationshipNarrative => Text(g.relationship.narrative)
    case SafetyBoundaries => List(g.relationship.safetyBoundaries)
    case VoicePortrait => Text(g.expression.voicePortrait)
    case BehaviorGuidance => List(g.expression.behaviorGuidance)
    case DialogueExamples => List(g.expression.dialogueExamples)
    case ModalityNotes => Notes(g.expression.modalityNotes)
  }

  function PersonaAuthoringOf(g: Genome): (a: Authored) {
    map f | f in ALL_FIELDS :: FieldOf(g, f)
  }

  /** The parts of a genome no authored field reaches, with the provenance an owner's edit leaves. */
  predicate SameMachinery(g: Genome, h: Genome) {
    && g.constitution.name == h.constitution.name
    && g.character.tensions == h.character.tensions && g.character.growthEdges == h.character.growthEdges
    && g.relationship.stage == h.relationship.stage
    && g.expression.signaturePhrases == h.expression.signaturePhrases
    && g.memoryPolicy == h.memoryPolicy && g.evolutionPolicy == h.evolutionPolicy
  }

  function OwnerEdited(p: Provenance, baseId: string): (r: Provenance) {
    p.(origin := "owner_authored", baseGenomeId := Some(baseId))
  }

  /** What applying means: supplied fields stripped, omitted fields kept, machinery and provenance as they must be. */
  ghost predicate IsApplied(base: Genome, a: Authored, baseId: string, g: Genome) {
    && (forall f: Field :: if f in a then Stores(a[f], FieldOf(g, f)) else FieldOf(g, f) == FieldOf(base, f))
    && SameMachinery(base, g)
    && g.provenance == base.provenance.(origin := "owner_authored", baseGenomeId := Some(baseId))
  }

  /** At most one genome meets that description. */
  lemma AppliedUnique(base: Genome, a: Authored, baseId: string, g: Genome, h: Genome)
    requires IsApplied(base, a, baseId, g) && IsApplied(base, a, baseId, h)
    ensures g == h
  {
    forall f: Field ensures FieldOf(g, f) == FieldOf(h, f) {
      AppliedField(base, a, baseId, g, f);
      AppliedField(base, a, baseId, h, f);
    }
    SameFieldsSameGenome(g, h);
  }

  lemma AppliedField(base: Genome, a: Authored, baseId: string, g: Genome, f: Field)
    requires IsApplied(base, a, baseId, g)
    ensures FieldOf(g, f) == if f in a then Stripped(a[f]) else FieldOf(base, f)
  {
    if f in a {
      StoresIff(a[f], FieldOf(g, f));
    }
  }

  /** Authored fields, machinery and provenance are the whole genome. */
  lemma SameFieldsSameGenome(g: Genome, h: Genome)
    requires SameMachinery(g, h) && g.provenance == h.provenance
    requires forall f: Field :: FieldOf(g, f) == FieldOf(h, f)
    ensures g == h
  {
    assert FieldOf(g, Archetype) == FieldOf(h, Archetype) && FieldOf(g, SelfConcept) == FieldOf(h, SelfConcept);
    assert FieldOf(g, Values) == FieldOf(h, Values) && FieldOf(g, Boundaries) == FieldOf(h, Boundaries);
    assert FieldOf(g, CharacterPortrait) == FieldOf(h, CharacterPortrait) && FieldOf(g, Traits) == FieldOf(h, Traits);
    assert FieldOf(g, RelationshipNarrative) == FieldOf(h, RelationshipNarrative);
    assert FieldOf(g, SafetyBoundaries) == FieldOf(h, SafetyBoundaries);
    assert FieldOf(g, VoicePortrait) == FieldOf(h, VoicePortrait);
    assert FieldOf(g, BehaviorGuidance) == FieldOf(h, BehaviorGuidance);
    assert FieldOf(g, DialogueExamples) == FieldOf(h, DialogueExamples);
    assert FieldOf(g, ModalityNotes) == FieldOf(h, ModalityNotes);
  }

  /** The dump read through the path table is the genome's fields. */
  lemma DumpReads(base: Genome)
    ensures forall f: Field :: PathOf(f) in Dump(base) && Dump(base)[PathOf(f)] == FieldOf(base, f)
  {
  }

  /** Loading puts each slot back in its field. */
  lemma LoadReads(base: Genome, p: Payload)
    requires Loadable(p)
    ensures forall f: Field :: FieldOf(Load(base, p), f) == p[PathOf(f)]
  {
    forall f: Field ensures FieldOf(Load(base, p), f) == p[PathOf(f)] {
      assert At(p, f) == p[PathOf(f)];
    }
  }

  lemma PathsInjective(f: Field, h: Field)
    ensures PathOf(f) == PathOf(h) <==> f == h
  {
  }

  /** The payload part way through: every set field outside `left` written, all others as dumped. */
  predicate Edited(base: Genome, a: Authored, left: set<Field>, p: Payload) {
    forall f: Field :: PathOf(f) in p && p[PathOf(f)] == EditedField(base, a, left, f)
  }

  function EditedField(base: Genome, a: Authored, left: set<Field>, f: Field): (v: FieldValue) {
    if f in a && f !in left then Stripped(a[f]) else FieldOf(base, f)
  }

  lemma EditOne(base: Genome, a: Authored, left: set<Field>, p: Payload, f: Field)
    requires Edited(base, a, left, p) && f in left && f in a
    ensures Edited(base, a, left - {f}, p[PathOf(f) := Stripped(a[f])])
  {
    var q := p[PathOf(f) := Stripped(a[f])];
    forall h: Field ensures PathOf(h) in q && q[PathOf(h)] == EditedField(base, a, left - {f}, h) {
      PathsInjective(f, h);
      assert PathOf(h) in p && p[PathOf(h)] == EditedField(base, a, left, h);
    }
  }

  lemma EditedFits(base: Genome, a: Authored, p: Payload)
    requires ValidGenome(base) && WellTyped(a) && Edited(base, a, {}, p)
    ensures Loadable(p) && ValidTraits(At(p, Traits).t)
  {
    forall f: Field ensures PathOf(f) in p && Fits(f, p[PathOf(f)]) {
      FieldsFit(base, f);
      assert p[PathOf(f)] == EditedField(base, a, {}, f);
    }
  }

  lemma EditedLoads(base: Genome, a: Authored, p: Payload, baseId: string)
    requires Loadable(p) && Edited(base, a, {}, p)
    ensures IsApplied(base, a, baseId, Load(base, p).(provenance := OwnerEdited(base.provenance, baseId)))
  {
    LoadReads(base, p);
    LoadKeepsMachinery(base, p);
    var loaded := Load(base, p);
    var g := loaded.(provenance := OwnerEdited(base.provenance, baseId));
    forall f: Field
      ensures if f in a then Stores(a[f], FieldOf(g, f)) else FieldOf(g, f) == FieldOf(base, f)
    {
      ProvenanceNotAuthored(loaded, g.provenance, f);
      assert FieldOf(loaded, f) == p[PathOf(f)];
      if f in a {
        StoresIff(a[f], FieldOf(g, f));
      }
    }
  }

  lemma ProvenanceNotAuthored(g: Genome, p: Provenance, f: Field)
    ensures FieldOf(g.(provenance := p), f) == FieldOf(g, f)
  {
  }

  /**
   * `apply_persona_authoring`: the dumped payload edited slot by slot, then validated as a genome again. Reading
   * the result back gives the supplied fields, stripped, over the old form.
   */
  method ApplyPersonaAuthoring(base: Genome, a: Authored, baseId: string) returns (g: Genome)
    requires ValidGenome(base) && WellTyped(a)
    ensures ValidGenome(g) && IsApplied(base, a, baseId, g)
    ensures PersonaAuthoringOf(g) == PersonaAuthoringOf(base) + StrippedFields(a)
  {
    var payload := Dump(base);
    var left := a.Keys;
    DumpReads(base);
    while left != {}
      invariant left <= a.Keys && Edited(base, a, left, payload)
      decreases |left|
    {
      var f :| f in left;
      EditOne(base, a, left, payload, f);
      payload := payload[PathOf(f) := Stripped(a[f])];
      left := left - {f};
    }
    EditedFits(base, a, payload);
    EditedLoads(base, a, payload, baseId);
    g := Load(base, payload).(provenance := OwnerEdited(base.provenance, baseId));
    FormOverlaid(base, a, baseId, g);
  }

  lemma FormOverlaid(base: Genome, a: Authored, baseId: string, g: Genome)
    requires IsApplied(base, a, baseId, g)
    ensures PersonaAuthoringOf(g) == PersonaAuthoringOf(base) + StrippedFields(a)
  {
    var read, overlaid := PersonaAuthoringOf(g), PersonaAuthoringOf(base) + StrippedFields(a);
    forall f: Field ensures f in read && f in overlaid && read[f] == overlaid[f] {
      AllFields(f);
      AppliedField(base, a, baseId, g, f);
    }
  }

  lemma FieldsFit(g: Genome, f: Field)
    requires ValidGenome(g)
    ensures Fits(f, FieldOf(g, f))
  {
  }

  lemma LoadKeepsMachinery(base: Genome, p: Payload)
    requires Loadable(p)
    ensures SameMachinery(base, Load(base, p)) && Load(base, p).provenance == base.provenance
  {
  }

  // The other lens laws, for any genome that applying can produce

  predicate AllTrimmed(g: Genome) {
    forall f: Field :: Stripped(FieldOf(g, f)) == FieldOf(g, f)
  }

  /** Applying what was just read changes nothing but provenance, exactly when no text had outer whitespace. */
  lemma ApplyWhatWasRead(base: Genome, baseId: string, g: Genome)
    requires IsApplied(base, PersonaAuthoringOf(base), baseId, g)
    ensures forall f: Field :: FieldOf(g, f) == Stripped(FieldOf(base, f))
    ensures g == base.(provenance := OwnerEdited(base.provenance, baseId)) <==> AllTrimmed(base)
  {
    var edited := base.(provenance := OwnerEdited(base.provenance, baseId));
    forall f: Field
      ensures FieldOf(edited, f) == FieldOf(base, f) && f in PersonaAuthoringOf(base)
      ensures FieldOf(g, f) == Stripped(FieldOf(base, f))
    {
      AllFields(f);
      AppliedField(base, PersonaAuthoringOf(base), baseId, g, f);
    }
    if AllTrimmed(base) {
      SameFieldsSameGenome(g, edited);
    }
  }

  /** Two applies are one apply of the merge in which the later fields win. */
  lemma ApplyTwice(
    base: Genome, a: Authored, b: Authored, first: string, second: string, g: Genome, h: Genome, once: Genome)
    requires IsApplied(base, a, first, g) && IsApplied(g, b, second, h)
    requires IsApplied(base, a + b, second, once)
    ensures h == once
  {
    forall f: Field ensures FieldOf(h, f) == FieldOf(once, f) {
      AppliedField(base, a, first, g, f);
      AppliedField(g, b, second, h, f);
      AppliedField(base, a + b, second, once, f);
    }
    SameFieldsSameGenome(h, once);
  }

  // Creation from a draft

  /** The template's wording. */
  datatype Texts = Texts(
    values: seq<string>, boundaries: seq<string>, guidance: seq<string>, portrait: string, voice: string)

  const DEFAULT_TEXTS: Texts := Texts(
    ["温暖而不空泛", "诚实说明不确定性", "尊重 owner 的主权和最终选择"],
    ["不假装记得未提供或没有证据的事实", "明确遵守安全与隐私边界"],
    ["直接回应 owner 当前的意图，说够就停；不默认补建议或追问。",
     "让记忆形成连续性，但不编造记忆。"],
    "一个沉稳、专注、愿意长期理解 owner 的伙伴。",
    "温暖、清晰、具体，不用空泛语言填补回应。")

  function SeededTrait(value: real): (r: Trait) { Trait(value, 0.5, None, "template") }

  function DefaultTraits(): (t: map<string, Trait>) {
    map[
      "core.extraversion" := SeededTrait(0.5), "core.intimacy" := SeededTrait(0.35),
      "core.vulnerability" := SeededTrait(0.25), "core.structure" := SeededTrait(0.55),
      "core.directiveness" := SeededTrait(0.45), "core.grounding" := SeededTrait(0.65),
      "core.imagination" := SeededTrait(0.55), "core.playfulness" := SeededTrait(0.5),
      "core.reflection_depth" := SeededTrait(0.55)]
  }

  function OrCompanion(archetype: string): (r: string) { if archetype == "" then "companion" else archetype }

  function BuildDefault(texts: Texts, name: string, archetype: string, provenance: Provenance): (g: Genome) {
    Genome(
      Constitution(name, OrCompanion(archetype), "", texts.values, texts.boundaries),
      Character(texts.portrait, DefaultTraits(), [], []),
      Relationship(New, "", []),
      Expression(texts.voice, texts.guidance, [], map[], map[]),
      MemoryPolicy([Json.Member("scope", Json.Str("owner_companion")),
                    Json.Member("use_memory_as_evidence", Json.Bool(true))], []),
      EvolutionPolicy(true, false, 0.05, ["core.intimacy", "core.vulnerability"]),
      provenance)
  }

  /** A form nobody filled in. */
  function DefaultFields(texts: Texts): (a: Authored) {
    map[
      Archetype := Text("companion"), SelfConcept := Text(""), CharacterPortrait := Text(texts.portrait),
      RelationshipNarrative := Text(""), VoicePortrait := Text(texts.voice), Values := List(texts.values),
      Boundaries := List(texts.boundaries), SafetyBoundaries := List([]), BehaviorGuidance := List(texts.guidance),
      DialogueExamples := List([]), ModalityNotes := Notes(map[]), Traits := Coordinates(map[])]
  }

  /** A draft: a name, and all twelve fields. */
  datatype Draft = Draft(name: string, fields: Authored)

  predicate ValidDraft(d: Draft) {
    Trim(d.name) != "" && WellTyped(d.fields) && forall f: Field :: f in d.fields
  }

  /** `PersonaAuthoringDraft.for_companion`. */
  function ForCompanion(texts: Texts, a: Option<Authored>, name: string): (d: Draft) {
    Draft(name, match a case None => DefaultFields(texts) case Some(fields) => DefaultFields(texts) + fields)
  }

  function DraftText(d: Draft, f: Field): (s: string)
    requires ValidDraft(d)
    requires f in {Archetype, SelfConcept, CharacterPortrait, RelationshipNarrative, VoicePortrait}
    ensures d.fields[f] == Text(s)
  {
    assert Fits(f, d.fields[f]);
    d.fields[f].s
  }

  function DraftList(d: Draft, f: Field): (xs: seq<string>)
    requires ValidDraft(d)
    requires f in {Values, Boundaries, SafetyBoundaries, BehaviorGuidance, DialogueExamples}
    ensures d.fields[f] == List(xs)
  {
    assert Fits(f, d.fields[f]);
    d.fields[f].xs
  }

  function DraftTraits(d: Draft): (t: map<string, Trait>)
    requires ValidDraft(d)
    ensures d.fields[Traits] == Coordinates(t)
  {
    assert Fits(Traits, d.fields[Traits]);
    d.fields[Traits].t
  }

  function DraftNotes(d: Draft): (m: map<string, string>)
    requires ValidDraft(d)
    ensures d.fields[ModalityNotes] == Notes(m)
  {
    assert Fits(ModalityNotes, d.fields[ModalityNotes]);
    d.fields[ModalityNotes].m
  }

  function BuildFromDraft(texts: Texts, d: Draft, provenance: Provenance): (g: Genome)
    requires ValidDraft(d)
  {
    var base := BuildDefault(texts, Trim(d.name), DraftText(d, Archetype), provenance);
    base.(
      constitution := base.constitution.(
        selfConcept := Trim(DraftText(d, SelfConcept)),
        values := DraftList(d, Values), boundaries := DraftList(d, Boundaries)),
      character := base.character.(
        portrait := Trim(DraftText(d, CharacterPortrait)), traits := base.character.traits + DraftTraits(d)),
      relationship := Relationship(New, Trim(DraftText(d, RelationshipNarrative)), DraftList(d, SafetyBoundaries)),
      expression := Expression(
        Trim(DraftText(d, VoicePortrait)), DraftList(d, BehaviorGuidance), DraftList(d, DialogueExamples),
        DraftNotes(d), map[]))
  }

  /** What creation makes of one field: text stripped, archetype only defaulted, traits laid over the template's. */
  function Settled(f: Field, v: FieldValue): (r: FieldValue)
    requires Fits(f, v)
  {
    match f
    case Archetype => Text(OrCompanion(v.s))
    case Traits => Coordinates(DefaultTraits() + v.t)
    case _ => Stripped(v)
  }

  lemma ReadAfterBuild(texts: Texts, d: Draft, provenance: Provenance)
    requires ValidDraft(d)
    ensures forall f: Field :: FieldOf(BuildFromDraft(texts, d, provenance), f) == Settled(f, d.fields[f])
  {
    var g := BuildFromDraft(texts, d, provenance);
    forall f: Field ensures FieldOf(g, f) == Settled(f, d.fields[f]) {
      assert Fits(f, d.fields[f]);
    }
  }

  /** What creation stores for one authored field, said without the functions that compute it. */
  ghost predicate Builds(f: Field, v: FieldValue, stored: FieldValue)
    requires Fits(f, v)
  {
    match f
    case Archetype => stored == if v.s == "" then Text("companion") else v
    case Traits =>
      && stored.Coordinates?
      && stored.t.Keys == DefaultTraits().Keys + v.t.Keys
      && forall k :: k in stored.t ==> stored.t[k] == if k in v.t then v.t[k] else DefaultTraits()[k]
    case _ => Stores(v, stored)
  }

  lemma BuildsIff(f: Field, v: FieldValue, stored: FieldValue)
    requires Fits(f, v)
    ensures Builds(f, v, stored) <==> stored == Settled(f, v)
  {
    StoresIff(v, stored);
    if f == Traits && Builds(f, v, stored) {
      assert stored.t == DefaultTraits() + v.t;
    }
  }

  /** What no draft decides: a new relationship, and the template's policies. */
  predicate HasTemplateMachinery(g: Genome) {
    && g.character.tensions == [] && g.character.growthEdges == []
    && g.relationship.stage == New && g.expression.signaturePhrases == map[]
    && g.memoryPolicy.relationPolicies == []
    && g.memoryPolicy.recallPolicy == [
         Json.Member("scope", Json.Str("owner_companion")), Json.Member("use_memory_as_evidence", Json.Bool(true))]
    && g.evolutionPolicy.enabled && !g.evolutionPolicy.autoApplyLowRisk
    && g.evolutionPolicy.maxDeltaPerCommit == 0.05
    && g.evolutionPolicy.reviewRequiredTraits == ["core.intimacy", "core.vulnerability"]
  }

  lemma MergedTraitsValid(d: Draft)
    requires ValidDraft(d)
    ensures ValidTraits(DefaultTraits() + DraftTraits(d))
  {
    assert Fits(Traits, d.fields[Traits]);
    DefaultTraitsValid();
    var own, merged := DraftTraits(d), DefaultTraits() + DraftTraits(d);
    forall k | k in merged
      ensures 0.0 <= merged[k].value <= 1.0 && 0.0 <= merged[k].confidence <= 1.0
    {
      assert merged[k] == if k in own then own[k] else DefaultTraits()[k];
    }
  }

  /** A draft builds a genome with its name stripped, each field stored, and the template's machinery. */
  lemma BuildStoresDraft(texts: Texts, d: Draft, provenance: Provenance)
    requires ValidDraft(d)
    ensures var g := BuildFromDraft(texts, d, provenance);
      && IsStripped(d.name, g.constitution.name)
      && (forall f: Field :: Fits(f, d.fields[f]) && Builds(f, d.fields[f], FieldOf(g, f)))
      && HasTemplateMachinery(g)
      && g.provenance == provenance
      && ValidGenome(g)
  {
    var g := BuildFromDraft(texts, d, provenance);
    TrimStrips(d.name);
    MergedTraitsValid(d);
    ReadAfterBuild(texts, d, provenance);
    forall f: Field
      ensures Fits(f, d.fields[f]) && Builds(f, d.fields[f], FieldOf(BuildFromDraft(texts, d, provenance), f))
    {
      assert Fits(f, d.fields[f]);
      BuildsIff(f, d.fields[f], Settled(f, d.fields[f]));
    }
  }

  lemma SettledTwice(f: Field, v: FieldValue)
    requires Fits(f, v)
    ensures Fits(f, Settled(f, v)) && Settled(f, Settled(f, v)) == Settled(f, v)
  {
    if f == Traits {
      assert DefaultTraits() + (DefaultTraits() + v.t) == DefaultTraits() + v.t;
      DefaultTraitsValid();
    }
  }

  lemma DefaultTraitsValid()
    ensures ValidTraits(DefaultTraits())
  {
  }

  /** Opening the form on a built genome and saving it untouched is a fixed point, template traits included. */
  lemma ReadBuildIdempotent(texts: Texts, d: Draft, name: string, p: Provenance, q: Provenance)
    requires ValidDraft(d) && Trim(name) != ""
    ensures var once := PersonaAuthoringOf(BuildFromDraft(texts, d, p));
      ValidDraft(ForCompanion(texts, Some(once), name))
        && PersonaAuthoringOf(BuildFromDraft(texts, ForCompanion(texts, Some(once), name), q)) == once
  {
    var once := PersonaAuthoringOf(BuildFromDraft(texts, d, p));
    BuiltFormSettled(texts, d, name, p);
    CompleteFormKept(texts, once, name);
    SettledDraftReadsBack(texts, Draft(name, once), q);
  }

  lemma BuiltFormSettled(texts: Texts, d: Draft, name: string, p: Provenance)
    requires ValidDraft(d) && Trim(name) != ""
    ensures var again := Draft(name, PersonaAuthoringOf(BuildFromDraft(texts, d, p)));
      ValidDraft(again) && IsSettled(again)
  {
    var g := BuildFromDraft(texts, d, p);
    var once := PersonaAuthoringOf(g);
    ReadAfterBuild(texts, d, p);
    forall f: Field ensures f in once && Fits(f, once[f]) && Settled(f, once[f]) == once[f] {
      AllFields(f);
      assert once[f] == FieldOf(g, f);
      assert Fits(f, d.fields[f]);
      SettledTwice(f, d.fields[f]);
    }
  }

  lemma CompleteFormKept(texts: Texts, a: Authored, name: string)
    requires forall f: Field :: f in a
    ensures ForCompanion(texts, Some(a), name) == Draft(name, a)
  {
    var merged := DefaultFields(texts) + a;
    assert forall f: Field :: f in merged && merged[f] == a[f];
    assert merged == a;
  }

  lemma SettledDraftReadsBack(texts: Texts, d: Draft, provenance: Provenance)
    requires ValidDraft(d)
    ensures PersonaAuthoringOf(BuildFromDraft(texts, d, provenance)) == d.fields <==> IsSettled(d)
  {
    ReadAfterBuild(texts, d, provenance);
    ReadEqualsIff(BuildFromDraft(texts, d, provenance), d.fields);
  }

  predicate IsSettled(d: Draft)
    requires ValidDraft(d)
  {
    forall f: Field :: Settled(f, d.fields[f]) == d.fields[f]
  }

  lemma ReadEqualsIff(g: Genome, a: Authored)
    requires forall f: Field :: f in a
    ensures PersonaAuthoringOf(g) == a <==> forall f: Field :: FieldOf(g, f) == a[f]
  {
    var read := PersonaAuthoringOf(g);
    forall f: Field ensures f in read && read[f] == FieldOf(g, f) {
      AllFields(f);
    }
    if forall f: Field :: FieldOf(g, f) == a[f] {
      assert read == a;
    }
  }

  /** A draft comes back as written exactly when its texts are trimmed, its archetype and traits the built ones. */
  lemma ReadAfterBuildIsDraftIff(texts: Texts, d: Draft, provenance: Provenance)
    requires ValidDraft(d)
    ensures PersonaAuthoringOf(BuildFromDraft(texts, d, provenance)) == d.fields <==>
      && (forall f: Field :: f != Archetype && d.fields[f].Text? ==> IsTrimmed(d.fields[f].s))
      && DraftText(d, Archetype) != ""
      && (forall k :: k in DefaultTraits() ==> k in DraftTraits(d))
  {
    SettledDraftReadsBack(texts, d, provenance);
    SettledByField(d);
  }

  lemma SettledByField(d: Draft)
    requires ValidDraft(d)
    ensures IsSettled(d) <==>
      && (forall f: Field :: f != Archetype && d.fields[f].Text? ==> IsTrimmed(d.fields[f].s))
      && DraftText(d, Archetype) != ""
      && (forall k :: k in DefaultTraits() ==> k in DraftTraits(d))
  {
    forall f: Field ensures Settled(f, d.fields[f]) == d.fields[f] <==> SettledAlready(f, d.fields[f]) {
      assert Fits(f, d.fields[f]);
      SettledIff(f, d.fields[f]);
    }
    if IsSettled(d) {
      assert SettledAlready(Archetype, d.fields[Archetype]) && SettledAlready(Traits, d.fields[Traits]);
    }
  }

  predicate SettledAlready(f: Field, v: FieldValue)
    requires Fits(f, v)
  {
    match f
    case Archetype => v.s != ""
    case Traits => forall k :: k in DefaultTraits() ==> k in v.t
    case _ => v.Text? ==> IsTrimmed(v.s)
  }

  lemma SettledIff(f: Field, v: FieldValue)
    requires Fits(f, v)
    ensures Settled(f, v) == v <==> SettledAlready(f, v)
  {
    if f == Traits {
      OverlayIff(DefaultTraits(), v.t);
    }
  }

  lemma OverlayIff(base: map<string, Trait>, t: map<string, Trait>)
    ensures base + t == t <==> forall k :: k in base ==> k in t
  {
    if base + t == t {
      forall k | k in base ensures k in t {
        assert k in base + t;
      }
    }
  }

  /** Nobody authored anything: the draft builds the template under that name, as its texts are trimmed. */
  lemma UnauthoredDraftIsTemplate(texts: Texts, name: string, provenance: Provenance)
    requires Trim(name) != ""
    ensures ValidDraft(ForCompanion(texts, None, name))
    ensures BuildFromDraft(texts, ForCompanion(texts, None, name), provenance)
      == BuildDefault(texts, Trim(name), "companion", provenance)
      <==> IsTrimmed(texts.portrait) && IsTrimmed(texts.voice)
  {
    DefaultFormComplete(texts, name);
    DefaultFormFields(texts);
    EmptyOverlay(DefaultTraits());
    BlankFormBuilds(texts, ForCompanion(texts, None, name), provenance);
  }

  predicate IsBlankForm(texts: Texts, a: Authored)
    requires forall f: Field :: f in a
  {
    && a[Archetype] == Text("companion") && a[SelfConcept] == Text("") && a[RelationshipNarrative] == Text("")
    && a[CharacterPortrait] == Text(texts.portrait) && a[VoicePortrait] == Text(texts.voice)
    && a[Values] == List(texts.values) && a[Boundaries] == List(texts.boundaries) && a[SafetyBoundaries] == List([])
    && a[BehaviorGuidance] == List(texts.guidance) && a[DialogueExamples] == List([])
    && a[ModalityNotes] == Notes(map[]) && a[Traits] == Coordinates(map[])
  }

  lemma DefaultFormFields(texts: Texts)
    requires forall f: Field :: f in DefaultFields(texts)
    ensures IsBlankForm(texts, DefaultFields(texts))
  {
  }

  lemma EmptyOverlay(t: map<string, Trait>)
    ensures t + map[] == t
  {
  }

  lemma BlankFormBuilds(texts: Texts, d: Draft, provenance: Provenance)
    requires ValidDraft(d) && IsBlankForm(texts, d.fields) && DefaultTraits() + map[] == DefaultTraits()
    ensures BuildFromDraft(texts, d, provenance) == BuildDefault(texts, Trim(d.name), "companion", provenance)
      <==> IsTrimmed(texts.portrait) && IsTrimmed(texts.voice)
  {
    assert IsTrimmed("") && Trim("") == "";
  }

  lemma DefaultFormComplete(texts: Texts, name: string)
    requires Trim(name) != ""
    ensures ValidDraft(ForCompanion(texts, None, name))
  {
    forall f: Field ensures f in DefaultFields(texts) {
      match f { case Archetype => case Values => case _ => }
    }
  }

  lemma DefaultTextsTrimmed()
    ensures IsTrimmed(DEFAULT_TEXTS.portrait) && IsTrimmed(DEFAULT_TEXTS.voice)
  {
  }
}
