/** What the ref in a configuration answer means for the ref a Body holds. */
module DeviceRef {
  datatype Ref = Ref(
    deviceInstanceId: string, ownerDomainId: string, ownerDomainGeneration: nat, claimGeneration: nat, trustEpoch: nat)

  datatype Correction = Keep | Adopt | Refuse

  /** Same device, Owner Domain and Owner generation. */
  predicate SameClaimant(a: Ref, b: Ref) {
    && a.deviceInstanceId == b.deviceInstanceId
    && a.ownerDomainId == b.ownerDomainId
    && a.ownerDomainGeneration == b.ownerDomainGeneration
  }

  /** Python's tuple order on `(claim_generation, trust_epoch)`. */
  predicate Newer(a: Ref, b: Ref) {
    a.claimGeneration > b.claimGeneration || (a.claimGeneration == b.claimGeneration && a.trustEpoch > b.trustEpoch)
  }

  /** `classify_authority_device_ref`. */
  function Classify(held: Ref, answered: Ref): (c: Correction) {
    if !SameClaimant(answered, held) then Refuse
    else if answered.claimGeneration == held.claimGeneration && answered.trustEpoch == held.trustEpoch then Keep
    else if Newer(answered, held) then Adopt
    else Refuse
  }

  /** What each answer means, on the fields of the two refs. */
  lemma ClassifyIff(held: Ref, answered: Ref)
    ensures Classify(held, answered) == Keep <==> answered == held
    ensures Classify(held, answered) == Adopt <==>
      && answered.deviceInstanceId == held.deviceInstanceId
      && answered.ownerDomainId == held.ownerDomainId
      && answered.ownerDomainGeneration == held.ownerDomainGeneration
      && (answered.claimGeneration > held.claimGeneration
          || (answered.claimGeneration == held.claimGeneration && answered.trustEpoch > held.trustEpoch))
  {
  }

  /**
   * Two parties that hold different refs and hear each other's: of one claimant, exactly one adopts and the other
   * refuses; of different claimants, both refuse.
   */
  lemma ClassifyOpposes(a: Ref, b: Ref)
    requires a != b
    ensures SameClaimant(a, b) ==> {Classify(a, b), Classify(b, a)} == {Adopt, Refuse}
    ensures !SameClaimant(a, b) ==> Classify(a, b) == Classify(b, a) == Refuse
  {
  }

  /** A Body that stores what it is told to adopt. */
  function Correct(held: Ref, answered: Ref): (r: Ref) {
    if Classify(held, answered) == Adopt then answered else held
  }

  function CorrectAll(held: Ref, answers: seq<Ref>): (r: Ref)
    decreases |answers|
  {
    if answers == [] then held else CorrectAll(Correct(held, answers[0]), answers[1..])
  }

  predicate AtLeast(a: Ref, b: Ref) { a == b || Newer(a, b) }

  /** `r` is the newest of the held ref and the answers meant for this claimant, and one of them. */
  ghost predicate IsNewest(r: Ref, held: Ref, answers: seq<Ref>) {
    && (r == held || (r in answers && SameClaimant(r, held)))
    && AtLeast(r, held)
    && forall a :: a in answers && SameClaimant(a, held) ==> AtLeast(r, a)
  }

  /** One step keeps the claimant, moves up or not at all, and lowers the epoch only under a higher generation. */
  lemma CorrectStep(held: Ref, answered: Ref)
    ensures var r := Correct(held, answered);
      && SameClaimant(r, held)
      && AtLeast(r, held)
      && (r.trustEpoch < held.trustEpoch ==> r.claimGeneration > held.claimGeneration)
      && (SameClaimant(answered, held) ==> AtLeast(r, answered))
  {
  }

  /** A run of answers ends at the newest ref for the claimant the Body started as. */
  lemma {:induction false} CorrectAllEndsAtNewest(held: Ref, answers: seq<Ref>)
    ensures IsNewest(CorrectAll(held, answers), held, answers) && SameClaimant(CorrectAll(held, answers), held)
    decreases |answers|
  {
    if answers != [] {
      CorrectStep(held, answers[0]);
      CorrectAllEndsAtNewest(Correct(held, answers[0]), answers[1..]);
      assert forall a :: a in answers <==> a == answers[0] || a in answers[1..];
    }
  }

  lemma NewestUnique(r: Ref, s: Ref, held: Ref, xs: seq<Ref>, ys: seq<Ref>)
    requires IsNewest(r, held, xs) && IsNewest(s, held, ys)
    requires forall a :: a in xs <==> a in ys
    ensures r == s
  {
  }

  /** Order and repetition of the answers do not matter. */
  lemma CorrectionConverges(held: Ref, xs: seq<Ref>, ys: seq<Ref>)
    requires forall a :: a in xs <==> a in ys
    ensures CorrectAll(held, xs) == CorrectAll(held, ys)
  {
    CorrectAllEndsAtNewest(held, xs);
    CorrectAllEndsAtNewest(held, ys);
    NewestUnique(CorrectAll(held, xs), CorrectAll(held, ys), held, xs, ys);
  }
}
