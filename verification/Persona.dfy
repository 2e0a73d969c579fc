/** The persona genome. Trait values, confidences and the step bound are reals: float rounding is not modelled. */
module Persona {
  import opened Wrappers
  import opened Json

  datatype Trait = Trait(value: real, confidence: real, lastChangedAt: Option<string>, source: string)

  datatype Constitution = Constitution(
    name: string, archetype: string, selfConcept: string, values: seq<string>, boundaries: seq<string>)

  datatype Character = Character(
    portrait: string, traits: map<string, Trait>, tensions: seq<string>, growthEdges: seq<string>)

  datatype Stage = New | Familiar | Trusted | Deep

  datatype Relationship = Relationship(stage: Stage, narrative: string, safetyBoundaries: seq<string>)

  datatype Expression = Expression(
    voicePortrait: string, behaviorGuidance: seq<string>, dialogueExamples: seq<string>,
    modalityNotes: map<string, string>, signaturePhrases: map<string, string>)

  datatype MemoryPolicy = MemoryPolicy(recallPolicy: seq<Member>, relationPolicies: seq<Member>)

  datatype EvolutionPolicy = EvolutionPolicy(
    enabled: bool, autoApplyLowRisk: bool, maxDeltaPerCommit: real, reviewRequiredTraits: seq<string>)

  datatype Evidence = Evidence(kind: string, refId: string, summary: string, confidence: real)

  datatype Provenance = Provenance(
    origin: string, baseGenomeId: Option<string>, sourcePresetId: Option<string>, sourcePresetRevision: Option<string>,
    evidence: seq<Evidence>, extra: seq<Member>)

  datatype Genome = Genome(
    constitution: Constitution, character: Character, relationship: Relationship, expression: Expression,
    memoryPolicy: MemoryPolicy, evolutionPolicy: EvolutionPolicy, provenance: Provenance)

  // Python's `str.strip()`

  predicate IsSpace(c: char) {
    var v := c as int;
    9 <= v <= 13 || 28 <= v <= 32 || v == 0x85 || v == 0xA0 || v == 0x1680 || 0x2000 <= v <= 0x200A
    || v == 0x2028 || v == 0x2029 || v == 0x202F || v == 0x205F || v == 0x3000
  }

  function TrimLeft(s: string): (r: string)
    ensures r != "" ==> !IsSpace(r[0])
  {
    if s != "" && IsSpace(s[0]) then TrimLeft(s[1..]) else s
  }

  function TrimRight(s: string): (r: string)
    ensures r <= s && (r != "" ==> !IsSpace(r[|r| - 1]))
  {
    if s != "" && IsSpace(s[|s| - 1]) then TrimRight(s[..|s| - 1]) else s
  }

  function Trim(s: string): (r: string)
    ensures IsTrimmed(r)
    ensures IsTrimmed(s) ==> r == s
  {
    TrimRight(TrimLeft(s))
  }

  predicate IsTrimmed(s: string) {
    s != "" ==> !IsSpace(s[0]) && !IsSpace(s[|s| - 1])
  }

  /** Python's whitespace, character by character. */
  const WHITESPACE: set<int> := {
    0x09, 0x0A, 0x0B, 0x0C, 0x0D, 0x1C, 0x1D, 0x1E, 0x1F, 0x20, 0x85, 0xA0, 0x1680, 0x2000, 0x2001, 0x2002, 0x2003,
    0x2004, 0x2005, 0x2006, 0x2007, 0x2008, 0x2009, 0x200A, 0x2028, 0x2029, 0x202F, 0x205F, 0x3000}

  lemma IsSpaceIffListed(c: char)
    ensures IsSpace(c) <==> c as int in WHITESPACE
  {
  }

  predicate White(s: string) { forall k :: 0 <= k < |s| ==> IsSpace(s[k]) }

  /** `t` is what is left of `s` between the white text at its front and at its end. */
  predicate StripsTo(s: string, i: int, j: int, t: string) {
    && 0 <= i <= j <= |s| && t == s[i..j]
    && White(s[..i]) && White(s[j..])
    && IsTrimmed(t)
  }

  ghost predicate IsStripped(s: string, t: string) {
    exists i, j :: StripsTo(s, i, j, t)
  }

  lemma {:induction false} TrimLeftCuts(s: string) returns (i: nat)
    ensures i <= |s| && TrimLeft(s) == s[i..] && White(s[..i])
  {
    if s != "" && IsSpace(s[0]) {
      var n := TrimLeftCuts(s[1..]);
      i := n + 1;
      assert s[..i] == [s[0]] + s[1..][..n];
    } else {
      i := 0;
    }
  }

  lemma CutsOne(s: string, before: string, j: nat)
    requires s != "" && before == s[..|s| - 1] && j <= |before|
    ensures before[..j] == s[..j] && s[j..] == before[j..] + [s[|s| - 1]]
  {
    assert s == before + [s[|s| - 1]];
  }

  lemma {:induction false} TrimRightCuts(s: string) returns (j: nat)
    ensures j <= |s| && TrimRight(s) == s[..j] && White(s[j..])
    decreases |s|
  {
    j := |s|;
    if s != "" && IsSpace(s[|s| - 1]) {
      var before := s[..|s| - 1];
      j := TrimRightCuts(before);
      CutsOne(s, before, j);
    }
  }

  lemma TrimStrips(s: string)
    ensures IsStripped(s, Trim(s))
  {
    var left := TrimLeft(s);
    var i := TrimLeftCuts(s);
    var j := TrimRightCuts(left);
    var t := Trim(s);
    assert t == left[..j] == s[i..i + j];
    assert left[j..] == s[i + j..];
    assert StripsTo(s, i, i + j, t);
  }

  /** Of two ways to strip a text, neither cuts into what the other leaves. */
  lemma LeavesAll(s: string, i: int, j: int, t: string, k: int, l: int, u: string)
    requires StripsTo(s, i, j, t) && StripsTo(s, k, l, u) && t != ""
    ensures u != "" && k <= i && j <= l
  {
    assert s[i] == t[0] && s[j - 1] == t[|t| - 1];
    StripsWhite(s, k, l, u);
  }

  lemma StripsWhite(s: string, k: int, l: int, u: string)
    requires StripsTo(s, k, l, u)
    ensures forall m :: 0 <= m < k || l <= m < |s| ==> IsSpace(s[m])
  {
    forall m | 0 <= m < k || l <= m < |s| ensures IsSpace(s[m]) {
      if m < k {
        assert s[..k][m] == s[m];
      } else {
        assert s[l..][m - l] == s[m];
      }
    }
  }

  /** `Trim` is the one way to strip a text. */
  lemma TrimIff(s: string, t: string)
    ensures IsStripped(s, t) <==> t == Trim(s)
  {
    TrimStrips(s);
    if IsStripped(s, t) {
      var i, j :| StripsTo(s, i, j, t);
      var k, l :| StripsTo(s, k, l, Trim(s));
      if t != "" {
        LeavesAll(s, i, j, t, k, l, Trim(s));
      }
      if Trim(s) != "" {
        LeavesAll(s, k, l, Trim(s), i, j, t);
      }
    }
  }

  // What a constructed genome has passed

  predicate ValidTraits(traits: map<string, Trait>) {
    forall k :: k in traits ==> 0.0 <= traits[k].value <= 1.0 && 0.0 <= traits[k].confidence <= 1.0
  }

  predicate ValidGenome(g: Genome) {
    && Trim(g.constitution.name) != ""
    && ValidTraits(g.character.traits)
    && 0.0 <= g.evolutionPolicy.maxDeltaPerCommit <= 1.0
  }

  /** A valid genome has a name that is not blank, and every value, confidence and the step bound from 0 up to 1. */
  lemma ValidGenomeIff(g: Genome)
    ensures ValidGenome(g) <==>
      && (exists i :: 0 <= i < |g.constitution.name| && !IsSpace(g.constitution.name[i]))
      && (forall k :: k in g.character.traits ==>
            var t := g.character.traits[k];
            !(t.value < 0.0) && !(t.value > 1.0) && !(t.confidence < 0.0) && !(t.confidence > 1.0))
      && !(g.evolutionPolicy.maxDeltaPerCommit < 0.0) && !(g.evolutionPolicy.maxDeltaPerCommit > 1.0)
  {
    BlankIff(g.constitution.name);
  }

  lemma BlankIff(s: string)
    ensures Trim(s) == "" <==> White(s)
  {
    TrimStrips(s);
    var i, j :| StripsTo(s, i, j, Trim(s));
    StripsWhite(s, i, j, Trim(s));
    assert Trim(s) != "" ==> s[i] == Trim(s)[0];
  }
}

/** Evidence-driven evolution: one accepted proposal, and what any number of them can reach. */
module PersonaEvolution {
  import opened Wrappers
  import opened Persona

  datatype Proposal = Proposal(rationale: string, evidence: seq<Evidence>, baseGenomeId: string, proposed: Genome)

  /** The proposal's own validator. */
  predicate ValidProposal(p: Proposal) {
    p.proposed.provenance.baseGenomeId == Some(p.baseGenomeId) && p.evidence != []
  }

  datatype Refusal =
    | Disabled | NoGrounds | ConstitutionRewritten | MemoryPolicyRewritten | EvolutionPolicyRewritten
    | RelationshipRewritten | TraitsAddedOrRemoved | DeltaTooLarge | StageOutOfStep

  function StageIndex(s: Stage): (i: nat) {
    match s case New => 0 case Familiar => 1 case Trusted => 2 case Deep => 3
  }

  function Abs(x: real): (r: real) { if x < 0.0 then -x else x }

  function Distance(a: Genome, b: Genome, key: string): (r: real)
    requires key in a.character.traits && key in b.character.traits
  {
    Abs(b.character.traits[key].value - a.character.traits[key].value)
  }

  predicate TraitsWithin(a: Genome, b: Genome, bound: real)
    requires b.character.traits.Keys == a.character.traits.Keys
  {
    forall k :: k in a.character.traits ==> Distance(a, b, k) <= bound
  }

  /** `validate_persona_evolution`; `None` where it returns. */
  function EvolutionRefusal(current: Genome, p: Proposal): (r: Option<Refusal>) {
    var candidate := p.proposed;
    if !current.evolutionPolicy.enabled then Some(Disabled)
    else if Trim(p.rationale) == "" || p.evidence == [] then Some(NoGrounds)
    else if candidate.constitution != current.constitution then Some(ConstitutionRewritten)
    else if candidate.memoryPolicy != current.memoryPolicy then Some(MemoryPolicyRewritten)
    else if candidate.evolutionPolicy != current.evolutionPolicy then Some(EvolutionPolicyRewritten)
    else if candidate.relationship.(stage := New) != current.relationship.(stage := New) then
      Some(RelationshipRewritten)
    else if candidate.character.traits.Keys != current.character.traits.Keys then Some(TraitsAddedOrRemoved)
    else if !TraitsWithin(current, candidate, current.evolutionPolicy.maxDeltaPerCommit) then Some(DeltaTooLarge)
    else
      var delta := StageIndex(candidate.relationship.stage) - StageIndex(current.relationship.stage);
      if delta < 0 || delta > 1 then Some(StageOutOfStep) else None
  }

  /** The check with its loop over the traits. */
  method ValidatePersonaEvolution(current: Genome, p: Proposal) returns (r: Option<Refusal>)
    ensures r == EvolutionRefusal(current, p)
  {
    var candidate := p.proposed;
    if !current.evolutionPolicy.enabled { return Some(Disabled); }
    if Trim(p.rationale) == "" || p.evidence == [] { return Some(NoGrounds); }
    if candidate.constitution != current.constitution { return Some(ConstitutionRewritten); }
    if candidate.memoryPolicy != current.memoryPolicy { return Some(MemoryPolicyRewritten); }
    if candidate.evolutionPolicy != current.evolutionPolicy { return Some(EvolutionPolicyRewritten); }
    if candidate.relationship.(stage := New) != current.relationship.(stage := New) {
      return Some(RelationshipRewritten);
    }
    if candidate.character.traits.Keys != current.character.traits.Keys { return Some(TraitsAddedOrRemoved); }
    var unchecked := current.character.traits.Keys;
    while unchecked != {}
      invariant unchecked <= current.character.traits.Keys
      invariant forall k :: k in current.character.traits && k !in unchecked ==>
        Distance(current, candidate, k) <= current.evolutionPolicy.maxDeltaPerCommit
      decreases |unchecked|
    {
      var k :| k in unchecked;
      if Distance(current, candidate, k) > current.evolutionPolicy.maxDeltaPerCommit { return Some(DeltaTooLarge); }
      unchecked := unchecked - {k};
    }
    var delta := StageIndex(candidate.relationship.stage) - StageIndex(current.relationship.stage);
    r := if delta < 0 || delta > 1 then Some(StageOutOfStep) else None;
  }

  /** The proposal is well formed and accepted. */
  predicate Accepts(a: Genome, p: Proposal) {
    ValidProposal(p) && ValidGenome(p.proposed) && EvolutionRefusal(a, p).None?
  }

  /** Proposals taken one after the other; `None` when one of them is not accepted. */
  function Evolve(a: Genome, ps: seq<Proposal>): (r: Option<Genome>)
    decreases |ps|
  {
    if ps == [] then Some(a)
    else if Accepts(a, ps[0]) then Evolve(ps[0].proposed, ps[1..])
    else None
  }

  /** What no evolution may touch. */
  predicate SameCore(a: Genome, b: Genome) {
    && b.constitution == a.constitution
    && b.memoryPolicy == a.memoryPolicy
    && b.evolutionPolicy == a.evolutionPolicy
    && b.relationship.narrative == a.relationship.narrative
    && b.relationship.safetyBoundaries == a.relationship.safetyBoundaries
    && b.character.traits.Keys == a.character.traits.Keys
  }

  /** The trait's value went up or down by no more than `bound`. */
  predicate MovedAtMost(a: Genome, b: Genome, key: string, bound: real)
    requires key in a.character.traits && key in b.character.traits
  {
    var before, after := a.character.traits[key].value, b.character.traits[key].value;
    before - bound <= after <= before + bound
  }

  /** Every trait moved by at most `bound`, the stage forward by at most `steps`; nothing untouchable moved. */
  predicate Within(a: Genome, b: Genome, bound: real, steps: nat) {
    && a.evolutionPolicy.enabled
    && SameCore(a, b)
    && (forall k :: k in a.character.traits ==> MovedAtMost(a, b, k, bound))
    && 0 <= StageIndex(b.relationship.stage) - StageIndex(a.relationship.stage) <= steps
  }

  predicate WithinReach(a: Genome, b: Genome, n: nat) {
    Within(a, b, Allowance(n, a.evolutionPolicy.maxDeltaPerCommit), if n < 3 then n else 3)
  }

  lemma AcceptedIffWithin(a: Genome, p: Proposal)
    requires ValidProposal(p) && ValidGenome(p.proposed)
    ensures Accepts(a, p) <==>
      Trim(p.rationale) != "" && Within(a, p.proposed, a.evolutionPolicy.maxDeltaPerCommit, 1)
  {
  }

  /** Bounds add up. */
  lemma WithinCompose(a: Genome, c: Genome, b: Genome, r: real, m: real, i: nat, j: nat)
    requires Within(a, c, r, i) && Within(c, b, m, j)
    ensures Within(a, b, r + m, i + j)
  {
    forall k | k in a.character.traits ensures MovedAtMost(a, b, k, r + m) {
      assert MovedAtMost(a, c, k, r) && MovedAtMost(c, b, k, m);
    }
  }

  /** What `n` steps of at most `m` add up to. */
  function Allowance(n: nat, m: real): (r: real)
    ensures m >= 0.0 ==> r >= 0.0
  {
    if n == 0 then 0.0 else Allowance(n - 1, m) + m
  }

  lemma {:induction false} AllowanceIsProduct(n: nat, m: real)
    ensures Allowance(n, m) == n as real * m
  {
    if n > 0 {
      AllowanceIsProduct(n - 1, m);
      assert (n - 1) as real == n as real - 1.0;
    }
  }

  /** `b`, provenance aside, is where some `n` accepted proposals lead from `a`. */
  ghost predicate Reaches(a: Genome, b: Genome, n: nat) {
    exists ps: seq<Proposal> :: |ps| == n && LeadsTo(a, ps, b)
  }

  predicate LeadsTo(a: Genome, ps: seq<Proposal>, b: Genome) {
    Evolve(a, ps).Some? && Evolve(a, ps).value.(provenance := b.provenance) == b
  }

  lemma FirstStepWithin(a: Genome, ps: seq<Proposal>)
    requires ps != [] && Evolve(a, ps).Some?
    ensures Within(a, ps[0].proposed, a.evolutionPolicy.maxDeltaPerCommit, 1)
    ensures ps[0].proposed.evolutionPolicy == a.evolutionPolicy
    ensures Evolve(a, ps) == Evolve(ps[0].proposed, ps[1..])
  {
    AcceptedIffWithin(a, ps[0]);
  }

  lemma {:induction false} RunStaysWithin(a: Genome, ps: seq<Proposal>)
    requires ps != [] && Evolve(a, ps).Some?
    ensures Within(a, Evolve(a, ps).value, Allowance(|ps|, a.evolutionPolicy.maxDeltaPerCommit), |ps|)
    decreases |ps|
  {
    var m, n := a.evolutionPolicy.maxDeltaPerCommit, |ps|;
    var c, b := ps[0].proposed, Evolve(a, ps).value;
    FirstStepWithin(a, ps);
    if n == 1 {
      assert Allowance(1, m) == Allowance(0, m) + m == m;
    } else {
      RunStaysWithin(c, ps[1..]);
      JoinStep(a, c, b, n);
    }
  }

  lemma JoinStep(a: Genome, c: Genome, b: Genome, n: nat)
    requires n >= 1
    requires Within(a, c, a.evolutionPolicy.maxDeltaPerCommit, 1)
    requires Within(c, b, Allowance(n - 1, a.evolutionPolicy.maxDeltaPerCommit), n - 1)
    ensures Within(a, b, Allowance(n, a.evolutionPolicy.maxDeltaPerCommit), n)
  {
    var m := a.evolutionPolicy.maxDeltaPerCommit;
    var r := Allowance(n - 1, m);
    WithinCompose(a, c, b, m, r, 1, n - 1);
    assert Allowance(n, m) == m + r;
  }

  // The explicit interpolation

  /** `x` moved toward `y` by at most `m`. */
  function Toward(x: real, y: real, m: real): (r: real)
    requires m >= 0.0
    ensures Abs(r - x) <= m
    ensures x <= r <= y || y <= r <= x
    ensures Abs(y - r) == if Abs(y - x) <= m then 0.0 else Abs(y - x) - m
  {
    if y - x > m then x + m else if x - y > m then x - m else y
  }

  function NextStage(from: Stage, to: Stage): (s: Stage) {
    if StageIndex(from) >= StageIndex(to) then from
    else match from case New => Familiar case Familiar => Trusted case Trusted => Deep case Deep => Deep
  }

  /** One step of the way from `a` to `b`. */
  function Nearer(a: Genome, b: Genome): (g: Genome)
    requires SameCore(a, b) && a.evolutionPolicy.maxDeltaPerCommit >= 0.0
  {
    var m := a.evolutionPolicy.maxDeltaPerCommit;
    a.(
      character := a.character.(traits := map k | k in a.character.traits ::
        a.character.traits[k].(value := Toward(a.character.traits[k].value, b.character.traits[k].value, m))),
      relationship := a.relationship.(stage := NextStage(a.relationship.stage, b.relationship.stage)))
  }

  /** The step is an evolution, and leaves that much less to go. */
  lemma NearerIsCloser(a: Genome, b: Genome, rest: real, steps: nat)
    requires ValidGenome(a) && ValidGenome(b) && rest >= 0.0
    requires Within(a, b, rest + a.evolutionPolicy.maxDeltaPerCommit, steps + 1)
    ensures ValidGenome(Nearer(a, b)) && Within(a, Nearer(a, b), a.evolutionPolicy.maxDeltaPerCommit, 1)
    ensures Within(Nearer(a, b), b, rest, steps)
  {
    var h, m := Nearer(a, b), a.evolutionPolicy.maxDeltaPerCommit;
    forall k | k in h.character.traits
      ensures MovedAtMost(a, h, k, m) && MovedAtMost(h, b, k, rest) && 0.0 <= h.character.traits[k].value <= 1.0
    {
      assert MovedAtMost(a, b, k, rest + m);
      assert h.character.traits[k].value == Toward(a.character.traits[k].value, b.character.traits[k].value, m);
    }
  }

  /** A proposal for `b`, with the provenance a proposal must carry. */
  function ProposalFor(b: Genome): (p: Proposal)
    ensures ValidProposal(p) && p.proposed.(provenance := b.provenance) == b
  {
    Proposal("x", [Evidence("", "", "", 0.5)], "", b.(provenance := b.provenance.(baseGenomeId := Some(""))))
  }

  lemma ProposalAccepted(a: Genome, b: Genome)
    requires ValidGenome(b) && Within(a, b, a.evolutionPolicy.maxDeltaPerCommit, 1)
    ensures Accepts(a, ProposalFor(b))
  {
    var p := ProposalFor(b);
    assert IsTrimmed("x");
    ProvenanceAside(a, b, p.proposed.provenance, a.evolutionPolicy.maxDeltaPerCommit, 1);
    AcceptedIffWithin(a, p);
  }

  lemma {:induction false} RunExists(a: Genome, b: Genome, n: nat) returns (ps: seq<Proposal>)
    requires ValidGenome(a) && ValidGenome(b) && n >= 1
    requires Within(a, b, Allowance(n, a.evolutionPolicy.maxDeltaPerCommit), n)
    ensures |ps| == n && LeadsTo(a, ps, b)
    decreases n
  {
    var m := a.evolutionPolicy.maxDeltaPerCommit;
    assert Allowance(n, m) == Allowance(n - 1, m) + m;
    if n == 1 {
      assert Allowance(0, m) == 0.0;
      ProposalAccepted(a, b);
      ps := [ProposalFor(b)];
    } else {
      var p := FirstProposal(a, b, n);
      var rest := RunExists(p.proposed, b, n - 1);
      ps := [p] + rest;
      assert ps[1..] == rest;
    }
  }

  /** A first accepted proposal that leaves one step less to go. */
  lemma FirstProposal(a: Genome, b: Genome, n: nat) returns (p: Proposal)
    requires ValidGenome(a) && ValidGenome(b) && n >= 1
    requires Within(a, b, Allowance(n, a.evolutionPolicy.maxDeltaPerCommit), n)
    ensures Accepts(a, p) && p.proposed.evolutionPolicy == a.evolutionPolicy
    ensures Within(p.proposed, b, Allowance(n - 1, a.evolutionPolicy.maxDeltaPerCommit), n - 1)
  {
    var m := a.evolutionPolicy.maxDeltaPerCommit;
    assert Allowance(n, m) == Allowance(n - 1, m) + m;
    NearerIsCloser(a, b, Allowance(n - 1, m), n - 1);
    p := ProposalToward(a, Nearer(a, b), b, Allowance(n - 1, m), n - 1);
  }

  lemma ProposalToward(a: Genome, h: Genome, b: Genome, bound: real, n: nat) returns (p: Proposal)
    requires ValidGenome(h) && Within(a, h, a.evolutionPolicy.maxDeltaPerCommit, 1) && Within(h, b, bound, n)
    ensures Accepts(a, p) && p.proposed.evolutionPolicy == a.evolutionPolicy && Within(p.proposed, b, bound, n)
  {
    p := ProposalFor(h);
    ProposalAccepted(a, h);
    CloserAside(h, p.proposed, b, bound, n);
  }

  lemma CloserAside(h: Genome, c: Genome, b: Genome, bound: real, n: nat)
    requires c.(provenance := h.provenance) == h && Within(h, b, bound, n)
    ensures Within(c, b, bound, n)
  {
    assert c.character == h.character && c.evolutionPolicy == h.evolutionPolicy && c.constitution == h.constitution;
    assert c.relationship == h.relationship && c.memoryPolicy == h.memoryPolicy;
    forall k | k in c.character.traits ensures MovedAtMost(c, b, k, bound) {
      assert MovedAtMost(h, b, k, bound);
    }
  }

  /** Provenance plays no part in how far two genomes are apart. */
  lemma ProvenanceAside(a: Genome, b: Genome, p: Provenance, bound: real, steps: nat)
    ensures Within(a, b.(provenance := p), bound, steps) <==> Within(a, b, bound, steps)
  {
    var c := b.(provenance := p);
    if SameCore(a, b) {
      forall k | k in a.character.traits ensures MovedAtMost(a, b, k, bound) <==> MovedAtMost(a, c, k, bound) {
      }
    }
  }

  lemma ReachesStaysWithin(a: Genome, b: Genome, n: nat)
    requires n >= 1 && Reaches(a, b, n)
    ensures Within(a, b, Allowance(n, a.evolutionPolicy.maxDeltaPerCommit), n)
  {
    var ps: seq<Proposal> :| |ps| == n && LeadsTo(a, ps, b);
    RunStaysWithin(a, ps);
    ProvenanceAside(a, Evolve(a, ps).value, b.provenance, Allowance(n, a.evolutionPolicy.maxDeltaPerCommit), n);
  }

  lemma StepsCapped(a: Genome, b: Genome, bound: real, n: nat)
    ensures Within(a, b, bound, n) <==> Within(a, b, bound, if n < 3 then n else 3)
  {
  }

  /**
   * Exactly what `n` accepted evolutions can reach: the untouchable parts agree, every trait moved by at most
   * `n` times the bound, and the stage advanced by at most `n` (there are three stages to advance).
   */
  lemma ReachableIff(a: Genome, b: Genome, n: nat)
    requires ValidGenome(a) && ValidGenome(b) && n >= 1
    ensures Reaches(a, b, n) <==> WithinReach(a, b, n)
  {
    StepsCapped(a, b, Allowance(n, a.evolutionPolicy.maxDeltaPerCommit), n);
    if Reaches(a, b, n) {
      ReachesStaysWithin(a, b, n);
    }
    if WithinReach(a, b, n) {
      var ps := RunExists(a, b, n);
    }
  }
}
