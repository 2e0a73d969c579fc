/** The Owner Domain directory: what a descriptor is, when one is accepted, and how endpoints are resolved. */
module Directory {
  import opened Wrappers
  import opened Text
  import opened Sorting
  import opened Lists

  datatype Authority = Admission | DeviceControl | BodyMesh | Companion

  datatype Endpoint = Endpoint(authority: Authority, audience: string, uri: string, transport: string, priority: int)

  datatype Document = Document(
    ownerDomainId: string, generation: int, revision: int, descriptorUri: string, trustRootRefs: seq<string>,
    endpoints: seq<Endpoint>, issuedAt: int, expiresAt: int, signingKeyId: string, signature: string)

  function Identity(e: Endpoint): (r: (Authority, string, string)) { (e.authority, e.audience, e.uri) }

  function Identities(es: seq<Endpoint>): (r: seq<(Authority, string, string)>) { Map(Identity, es) }

  /** The cross-field rules, as a descriptor is tested for them when it is constructed. */
  predicate PassesValidator(d: Document) {
    !(d.expiresAt <= d.issuedAt) && Unique(Identities(d.endpoints))
  }

  /** The window is not empty, and no two endpoints agree on authority, audience and uri. */
  predicate Validated(d: Document) {
    && d.issuedAt < d.expiresAt
    && forall i, j :: 0 <= i < j < |d.endpoints| ==>
         || d.endpoints[i].authority != d.endpoints[j].authority
         || d.endpoints[i].audience != d.endpoints[j].audience
         || d.endpoints[i].uri != d.endpoints[j].uri
  }

  /** Comparing the set's size with the list's is comparing every pair of endpoints. */
  lemma ValidatedIff(d: Document)
    ensures PassesValidator(d) <==> Validated(d)
  {
    UniqueIffDistinct(Identities(d.endpoints));
    assert forall i :: 0 <= i < |d.endpoints| ==> Identities(d.endpoints)[i] == Identity(d.endpoints[i]);
  }

  type Descriptor = d: Document | Validated(d) witness Document("", 1, 1, "", [], [], 0, 1, "", "")

  /** The commissioned root. Certificates and signatures are outside the model: two predicates stand for them. */
  datatype TrustAnchor = TrustAnchor(
    ownerDomainId: string, keyId: string, authorityKeyId: string,
    delegated: int -> bool, signatureOk: Descriptor -> bool)

  /** A trusted time with or without an offset. */
  datatype Instant = Naive | Utc(t: int)

  datatype LocatorError =
    | NaiveClock | NotDelegated | DomainMismatch | KeyNotDelegated | RootNotRetained | BadSignature
    | NotYetValid | Expired | GenerationRollback | RevisionRollback | RevisionReused
    | NotCommissioned | DiscoveryRequired | NoEndpoint

  /** `verify_descriptor`; `None` where it returns. */
  function VerifyDescriptor(d: Descriptor, anchor: TrustAnchor): (e: Option<LocatorError>) {
    if d.ownerDomainId != anchor.ownerDomainId then Some(DomainMismatch)
    else if d.signingKeyId != anchor.authorityKeyId then Some(KeyNotDelegated)
    else if anchor.keyId !in d.trustRootRefs then Some(RootNotRetained)
    else if !anchor.signatureOk(d) then Some(BadSignature)
    else None
  }

  /** Everything `accept` checks before it looks at what it already holds. */
  function Screen(anchor: TrustAnchor, candidate: Descriptor, now: Instant): (e: Option<LocatorError>) {
    if now.Naive? then Some(NaiveClock)
    else if !anchor.delegated(now.t) then Some(NotDelegated)
    else if VerifyDescriptor(candidate, anchor).Some? then VerifyDescriptor(candidate, anchor)
    else if now.t < candidate.issuedAt then Some(NotYetValid)
    else if now.t >= candidate.expiresAt then Some(Expired)
    else None
  }

  function AgainstHeld(held: Option<Descriptor>, candidate: Descriptor): (e: Option<LocatorError>) {
    if held.None? then None
    else if candidate.generation < held.value.generation then Some(GenerationRollback)
    else if candidate.generation > held.value.generation then None
    else if candidate.revision < held.value.revision then Some(RevisionRollback)
    else if candidate.revision == held.value.revision && candidate != held.value then Some(RevisionReused)
    else None
  }

  function AcceptError(anchor: TrustAnchor, held: Option<Descriptor>, candidate: Descriptor, now: Instant)
    : (e: Option<LocatorError>)
  {
    if Screen(anchor, candidate, now).Some? then Screen(anchor, candidate, now) else AgainstHeld(held, candidate)
  }

  function AcceptStep(anchor: TrustAnchor, held: Option<Descriptor>, candidate: Descriptor, now: Instant)
    : (next: Option<Descriptor>)
  {
    if AcceptError(anchor, held, candidate, now).None? then Some(candidate) else held
  }

  // Resolution

  function For(authority: Authority, es: seq<Endpoint>): (r: seq<Endpoint>) {
    if es == [] then []
    else (if es[0].authority == authority then [es[0]] else []) + For(authority, es[1..])
  }

  /** The sort key `(priority, logical_audience, uri)`. */
  predicate Before(a: Endpoint, b: Endpoint) {
    a.priority < b.priority
    || (a.priority == b.priority && (Less(a.audience, b.audience) || (a.audience == b.audience && Less(a.uri, b.uri))))
  }

  function Ranked(authority: Authority, es: seq<Endpoint>): (r: seq<Endpoint>) {
    Sort(For(authority, es), (a, b) => Before(a, b))
  }

  function ResolveFrom(
    anchor: TrustAnchor, held: Option<Descriptor>, ownerDomainId: string, authority: Authority, now: Instant
  ): (r: Result<seq<Endpoint>, LocatorError>) {
    if now.Naive? then Err(NaiveClock)
    else if ownerDomainId != anchor.ownerDomainId then Err(NotCommissioned)
    else if held.None? || now.t >= held.value.expiresAt then Err(DiscoveryRequired)
    else if Ranked(authority, held.value.endpoints) == [] then Err(NoEndpoint)
    else Ok(Ranked(authority, held.value.endpoints))
  }

  /** The stateful locator. */
  class AuthorityLocator {
    const anchor: TrustAnchor
    var accepted: Option<Descriptor>

    constructor (anchor: TrustAnchor)
      ensures this.anchor == anchor && accepted == None
    {
      this.anchor := anchor;
      accepted := None;
    }

    method Accept(candidate: Descriptor, now: Instant) returns (error: Option<LocatorError>)
      modifies this
      ensures error == AcceptError(anchor, old(accepted), candidate, now)
      ensures accepted == AcceptStep(anchor, old(accepted), candidate, now)
      ensures error.Some? ==> accepted == old(accepted)
    {
      if now.Naive? { return Some(NaiveClock); }
      if !anchor.delegated(now.t) { return Some(NotDelegated); }
      if candidate.ownerDomainId != anchor.ownerDomainId { return Some(DomainMismatch); }
      if candidate.signingKeyId != anchor.authorityKeyId { return Some(KeyNotDelegated); }
      if anchor.keyId !in candidate.trustRootRefs { return Some(RootNotRetained); }
      if !anchor.signatureOk(candidate) { return Some(BadSignature); }
      if now.t < candidate.issuedAt { return Some(NotYetValid); }
      if now.t >= candidate.expiresAt { return Some(Expired); }
      if accepted.Some? {
        var current := accepted.value;
        if candidate.generation < current.generation { return Some(GenerationRollback); }
        if candidate.generation == current.generation {
          if candidate.revision < current.revision { return Some(RevisionRollback); }
          if candidate.revision == current.revision && candidate != current { return Some(RevisionReused); }
        }
      }
      accepted := Some(candidate);
      error := None;
    }

    /** `AuthorityLocator(anchor, accepted)`: a saved descriptor is accepted again at the time it was issued. */
    static method Restore(anchor: TrustAnchor, saved: Option<Descriptor>)
      returns (locator: AuthorityLocator, error: Option<LocatorError>)
      ensures fresh(locator) && locator.anchor == anchor
      ensures error == RestoreError(anchor, saved)
      ensures error.None? ==> locator.accepted == saved
    {
      locator := new AuthorityLocator(anchor);
      error := None;
      if saved.Some? {
        error := locator.Accept(saved.value, Utc(saved.value.issuedAt));
      }
    }

    /**
     * Succeeds exactly for the commissioned domain, before the held descriptor expires, when it lists the authority;
     * the endpoints come back as that authority's, each once, strictly in key order.
     */
    method Resolve(ownerDomainId: string, authority: Authority, now: Instant)
      returns (r: Result<seq<Endpoint>, LocatorError>)
      ensures r == ResolveFrom(anchor, accepted, ownerDomainId, authority, now)
      ensures r.Ok? <==>
        && now.Utc? && ownerDomainId == anchor.ownerDomainId
        && accepted.Some? && now.t < accepted.value.expiresAt
        && exists e :: e in accepted.value.endpoints && e.authority == authority
      ensures r.Ok? ==> IsResolution(authority, accepted.value.endpoints, r.value)
    {
      ResolveSucceedsIff(anchor, accepted, ownerDomainId, authority, now);
      if now.Naive? { return Err(NaiveClock); }
      if ownerDomainId != anchor.ownerDomainId { return Err(NotCommissioned); }
      if accepted.None? { return Err(DiscoveryRequired); }
      var descriptor := accepted.value;
      if now.t >= descriptor.expiresAt { return Err(DiscoveryRequired); }
      var endpoints := Sort(For(authority, descriptor.endpoints), (a, b) => Before(a, b));
      RankedIsSortedPermutation(authority, descriptor);
      if endpoints == [] { return Err(NoEndpoint); }
      return Ok(endpoints);
    }
  }

  function RestoreError(anchor: TrustAnchor, saved: Option<Descriptor>): (e: Option<LocatorError>) {
    if saved.None? then None else AcceptError(anchor, None, saved.value, Utc(saved.value.issuedAt))
  }

  /**
   * A candidate is accepted exactly when it is this domain's, signed by the delegated key under the commissioned
   * root, inside its window on a trusted clock, and newer than - or the very same as - what is held.
   */
  lemma AcceptedIff(anchor: TrustAnchor, held: Option<Descriptor>, c: Descriptor, now: Instant)
    ensures AcceptError(anchor, held, c, now).None? <==>
      && now.Utc? && anchor.delegated(now.t) && c.issuedAt <= now.t < c.expiresAt
      && c.ownerDomainId == anchor.ownerDomainId && c.signingKeyId == anchor.authorityKeyId
      && anchor.keyId in c.trustRootRefs && anchor.signatureOk(c)
      && (held.Some? ==>
            || held.value == c
            || held.value.generation < c.generation
            || (held.value.generation == c.generation && held.value.revision < c.revision))
    ensures AcceptError(anchor, held, c, now).Some? ==> AcceptStep(anchor, held, c, now) == held
  {
  }

  // What resolution returns

  lemma {:induction false} ForElements(authority: Authority, es: seq<Endpoint>)
    ensures forall e :: e in For(authority, es) <==> e in es && e.authority == authority
  {
    if es != [] {
      ForElements(authority, es[1..]);
      assert es == [es[0]] + es[1..];
    }
  }

  /** No two endpoints of one authority share a sort key: priority aside, they differ in audience or uri. */
  predicate DistinctKeys(es: seq<Endpoint>) {
    forall i, j :: 0 <= i < j < |es| ==> (es[i].audience, es[i].uri) != (es[j].audience, es[j].uri)
  }

  lemma {:induction false} ForDistinct(authority: Authority, es: seq<Endpoint>)
    requires forall i, j :: 0 <= i < j < |es| ==> Identity(es[i]) != Identity(es[j])
    ensures DistinctKeys(For(authority, es))
  {
    if es != [] {
      ForDistinct(authority, es[1..]);
      ForElements(authority, es[1..]);
      var rest := For(authority, es[1..]);
      forall k | 0 <= k < |rest| && es[0].authority == authority
        ensures (es[0].audience, es[0].uri) != (rest[k].audience, rest[k].uri)
      {
        assert rest[k] in rest;
        var m :| 0 <= m < |es[1..]| && es[1..][m] == rest[k];
        assert Identity(es[0]) != Identity(es[m + 1]);
      }
    }
  }

  lemma BeforeTransitive(a: Endpoint, b: Endpoint, c: Endpoint)
    requires Before(a, b) && Before(b, c)
    ensures Before(a, c)
  {
    if Less(a.audience, b.audience) && Less(b.audience, c.audience) {
      LessTransitive(a.audience, b.audience, c.audience);
    }
    if Less(a.uri, b.uri) && Less(b.uri, c.uri) {
      LessTransitive(a.uri, b.uri, c.uri);
    }
  }

  lemma BeforeTotal(a: Endpoint, b: Endpoint)
    ensures !(Before(a, b) && Before(b, a))
    ensures (a.audience, a.uri) != (b.audience, b.uri) ==> Before(a, b) || Before(b, a)
  {
    LessTotal(a.audience, b.audience);
    LessTotal(a.uri, b.uri);
  }

  lemma BeforeOrders(es: seq<Endpoint>)
    requires DistinctKeys(es)
    ensures Distinct(es) && Orders(es, (a, b) => Before(a, b))
  {
    forall a, b | a in es && b in es
      ensures !(Before(a, b) && Before(b, a)) && (a != b ==> Before(a, b) || Before(b, a))
    {
      BeforeTotal(a, b);
      var i :| 0 <= i < |es| && es[i] == a;
      var j :| 0 <= j < |es| && es[j] == b;
    }
    forall a, b, c | a in es && b in es && c in es && Before(a, b) && Before(b, c) ensures Before(a, c) {
      BeforeTransitive(a, b, c);
    }
  }

  /** The asked authority's endpoints, each exactly as often as listed, strictly in key order. */
  ghost predicate IsResolution(authority: Authority, listed: seq<Endpoint>, r: seq<Endpoint>) {
    && multiset(r) == multiset(For(authority, listed))
    && (forall e :: e in r <==> e in listed && e.authority == authority)
    && forall i, j :: 0 <= i < j < |r| ==> Precedes(r[i], r[j])
  }

  /** A smaller priority number; on equal priority the audience, then the uri, that comes first by code points. */
  ghost predicate Precedes(a: Endpoint, b: Endpoint) {
    && a.priority <= b.priority
    && (a.priority == b.priority ==>
          Earlier(a.audience, b.audience) || (a.audience == b.audience && Earlier(a.uri, b.uri)))
  }

  lemma BeforeIff(a: Endpoint, b: Endpoint)
    ensures Before(a, b) <==> Precedes(a, b)
  {
    LessIffEarlier(a.audience, b.audience);
    LessIffEarlier(a.uri, b.uri);
  }

  /** Resolution returns the asked authority's endpoints, each exactly once, strictly in key order. */
  lemma RankedIsSortedPermutation(authority: Authority, d: Descriptor)
    ensures IsResolution(authority, d.endpoints, Ranked(authority, d.endpoints))
  {
    var mine := For(authority, d.endpoints);
    ForElements(authority, d.endpoints);
    ForDistinct(authority, d.endpoints);
    BeforeOrders(mine);
    SortPermutes(mine, (a, b) => Before(a, b));
    SortAscends(mine, (a, b) => Before(a, b));
    InMultiset(Ranked(authority, d.endpoints), mine);
    var r := Ranked(authority, d.endpoints);
    forall i, j | 0 <= i < j < |r| ensures Precedes(r[i], r[j]) {
      BeforeIff(r[i], r[j]);
    }
  }

  lemma RankedAscends(authority: Authority, d: Descriptor)
    ensures Ascending(Ranked(authority, d.endpoints), (a, b) => Before(a, b))
  {
    RankedIsSortedPermutation(authority, d);
    var r := Ranked(authority, d.endpoints);
    forall i, j | 0 <= i < j < |r| ensures Before(r[i], r[j]) {
      BeforeIff(r[i], r[j]);
    }
  }

  /** The order of the list in the document does not matter: equal endpoint sets resolve alike. */
  lemma RankedDependsOnSet(authority: Authority, d: Descriptor, e: Descriptor)
    requires forall x :: x in d.endpoints <==> x in e.endpoints
    ensures Ranked(authority, d.endpoints) == Ranked(authority, e.endpoints)
  {
    RankedIsSortedPermutation(authority, d);
    RankedIsSortedPermutation(authority, e);
    RankedAscends(authority, d);
    RankedAscends(authority, e);
    var r := Ranked(authority, d.endpoints);
    forall a, b | a in r && b in r ensures !(Before(a, b) && Before(b, a)) {
      BeforeTotal(a, b);
    }
    AscendingUnique(r, Ranked(authority, e.endpoints), (a, b) => Before(a, b));
  }

  /** When resolution succeeds, and that it never does at or after expiry. */
  lemma ResolveSucceedsIff(
    anchor: TrustAnchor, held: Option<Descriptor>, ownerDomainId: string, authority: Authority, now: Instant)
    ensures ResolveFrom(anchor, held, ownerDomainId, authority, now).Ok? <==>
      && now.Utc? && ownerDomainId == anchor.ownerDomainId
      && held.Some? && now.t < held.value.expiresAt
      && exists e :: e in held.value.endpoints && e.authority == authority
  {
    if held.Some? {
      RankedEmptyIff(authority, held.value);
    }
  }

  lemma RankedEmptyIff(authority: Authority, d: Descriptor)
    ensures Ranked(authority, d.endpoints) != [] <==> exists e :: e in d.endpoints && e.authority == authority
  {
    RankedIsSortedPermutation(authority, d);
    var r := Ranked(authority, d.endpoints);
    if e :| e in d.endpoints && e.authority == authority {
      assert e in r;
    }
    if r != [] {
      assert r[0] in r;
    }
  }
}

/** Whole runs of a locator. */
module DirectoryRuns {
  import opened Wrappers
  import opened Directory

  datatype Offer = Offer(candidate: Descriptor, now: Instant)

  function Run(anchor: TrustAnchor, held: Option<Descriptor>, offers: seq<Offer>): (r: Option<Descriptor>)
    decreases |offers|
  {
    if offers == [] then held
    else Run(anchor, AcceptStep(anchor, held, offers[0].candidate, offers[0].now), offers[1..])
  }

  /** `(generation, revision)` in lexicographic order. */
  predicate NotAfter(a: Descriptor, b: Descriptor) {
    a.generation < b.generation || (a.generation == b.generation && a.revision <= b.revision)
  }

  predicate SamePair(a: Descriptor, b: Descriptor) { a.generation == b.generation && a.revision == b.revision }

  predicate Upwards(a: Option<Descriptor>, b: Option<Descriptor>) {
    a.Some? ==> b.Some? && NotAfter(a.value, b.value)
  }

  lemma {:induction false} RunConcat(anchor: TrustAnchor, held: Option<Descriptor>, xs: seq<Offer>, ys: seq<Offer>)
    ensures Run(anchor, held, xs + ys) == Run(anchor, Run(anchor, held, xs), ys)
    decreases |xs|
  {
    if xs == [] {
      assert xs + ys == ys;
    } else {
      assert (xs + ys)[1..] == xs[1..] + ys;
      RunConcat(anchor, AcceptStep(anchor, held, xs[0].candidate, xs[0].now), xs[1..], ys);
    }
  }

  /**
   * Over any stretch of a run the held pair does not go down, and if it is the same at the end then so is
   * the document: content never changes under one (generation, revision).
   */
  lemma {:induction false} RunNeverRollsBack(anchor: TrustAnchor, held: Option<Descriptor>, offers: seq<Offer>)
    ensures var last := Run(anchor, held, offers);
      && Upwards(held, last)
      && (held.Some? && SamePair(held.value, last.value) ==> last == held)
    decreases |offers|
  {
    if offers != [] {
      RunNeverRollsBack(anchor, AcceptStep(anchor, held, offers[0].candidate, offers[0].now), offers[1..]);
    }
  }

  predicate AcceptedAt(anchor: TrustAnchor, held: Option<Descriptor>, offers: seq<Offer>, i: nat)
    requires i < |offers|
  {
    AcceptError(anchor, Run(anchor, held, offers[..i]), offers[i].candidate, offers[i].now).None?
  }

  /** Only the current descriptor is ever compared, yet no pair is reused with other content anywhere in a run. */
  lemma AcceptedPairsAreUnique(anchor: TrustAnchor, held: Option<Descriptor>, offers: seq<Offer>, i: nat, j: nat)
    requires i < j < |offers|
    requires AcceptedAt(anchor, held, offers, i) && AcceptedAt(anchor, held, offers, j)
    ensures NotAfter(offers[i].candidate, offers[j].candidate)
    ensures SamePair(offers[i].candidate, offers[j].candidate) ==> offers[i].candidate == offers[j].candidate
  {
    var between := offers[i + 1..j];
    assert offers[..i + 1] == offers[..i] + [offers[i]];
    RunConcat(anchor, held, offers[..i], [offers[i]]);
    assert [offers[i]][1..] == [];
    assert Run(anchor, held, offers[..i + 1]) == Some(offers[i].candidate);
    assert offers[..j] == offers[..i + 1] + between;
    RunConcat(anchor, held, offers[..i + 1], between);
    RunNeverRollsBack(anchor, Some(offers[i].candidate), between);
  }

  // Convergence

  /** The offer is in order by itself: verified, delegated and inside its window when it arrives. */
  predicate Good(anchor: TrustAnchor, o: Offer) { Screen(anchor, o.candidate, o.now).None? }

  predicate Offered(anchor: TrustAnchor, offers: seq<Offer>, d: Descriptor) {
    exists o :: o in offers && o.candidate == d && Good(anchor, o)
  }

  /** The publisher never signs two documents under one pair. */
  ghost predicate OneDocumentPerPair(anchor: TrustAnchor, offers: seq<Offer>) {
    forall d: Descriptor, e: Descriptor ::
      Offered(anchor, offers, d) && Offered(anchor, offers, e) && SamePair(d, e) ==> d == e
  }

  ghost predicate IsGreatest(anchor: TrustAnchor, offers: seq<Offer>, r: Option<Descriptor>) {
    && (r.Some? ==> Offered(anchor, offers, r.value))
    && forall d: Descriptor :: Offered(anchor, offers, d) ==> r.Some? && NotAfter(d, r.value)
  }

  /** A fresh locator ends at the greatest good candidate, whatever else it was offered and in whatever order. */
  lemma {:induction false} RunEndsAtGreatest(anchor: TrustAnchor, offers: seq<Offer>)
    requires OneDocumentPerPair(anchor, offers)
    ensures IsGreatest(anchor, offers, Run(anchor, None, offers))
  {
    if offers != [] {
      var n := |offers| - 1;
      var before, last := offers[..n], offers[n];
      assert offers == before + [last];
      forall d: Descriptor ensures Offered(anchor, before, d) ==> Offered(anchor, offers, d) {
        OfferedMore(anchor, before, last, d);
      }
      RunEndsAtGreatest(anchor, before);
      RunConcat(anchor, None, before, [last]);
      assert [last][1..] == [];
      GreatestStep(anchor, before, last, Run(anchor, None, before));
    }
  }

  lemma OfferedMore(anchor: TrustAnchor, before: seq<Offer>, last: Offer, d: Descriptor)
    ensures Offered(anchor, before + [last], d) <==>
      Offered(anchor, before, d) || (last.candidate == d && Good(anchor, last))
  {
    if Offered(anchor, before, d) {
      var o :| o in before && o.candidate == d && Good(anchor, o);
      assert o in before + [last];
    }
    assert last in before + [last];
  }

  /** Accepting or refusing one more offer keeps the greatest good candidate. */
  lemma GreatestStep(anchor: TrustAnchor, before: seq<Offer>, last: Offer, r: Option<Descriptor>)
    requires OneDocumentPerPair(anchor, before + [last]) && IsGreatest(anchor, before, r)
    ensures IsGreatest(anchor, before + [last], AcceptStep(anchor, r, last.candidate, last.now))
  {
    forall d: Descriptor ensures Offered(anchor, before + [last], d) <==>
      Offered(anchor, before, d) || (last.candidate == d && Good(anchor, last))
    {
      OfferedMore(anchor, before, last, d);
    }
  }

  /** Two deliveries of the same good candidates, in any orders and with any repetitions, end alike. */
  lemma RunsConverge(anchor: TrustAnchor, xs: seq<Offer>, ys: seq<Offer>)
    requires OneDocumentPerPair(anchor, xs)
    requires forall d: Descriptor :: Offered(anchor, xs, d) <==> Offered(anchor, ys, d)
    ensures Run(anchor, None, xs) == Run(anchor, None, ys)
  {
    RunEndsAtGreatest(anchor, xs);
    RunEndsAtGreatest(anchor, ys);
    var a, b := Run(anchor, None, xs), Run(anchor, None, ys);
    if a.Some? {
      assert Offered(anchor, ys, a.value);
    }
    if b.Some? {
      assert Offered(anchor, xs, b.value);
    }
  }

  // Restarts

  datatype Action = Deliver(offer: Offer) | Rebuild

  /** A run in which the locator may be rebuilt from what it held; a refused rebuild ends it. */
  function RunActions(anchor: TrustAnchor, held: Option<Descriptor>, actions: seq<Action>)
    : (r: Result<Option<Descriptor>, LocatorError>)
    decreases |actions|
  {
    if actions == [] then Ok(held)
    else match actions[0]
      case Deliver(o) => RunActions(anchor, AcceptStep(anchor, held, o.candidate, o.now), actions[1..])
      case Rebuild =>
        if RestoreError(anchor, held).Some? then Err(RestoreError(anchor, held).value)
        else RunActions(anchor, held, actions[1..])
  }

  function Deliveries(actions: seq<Action>): (offers: seq<Offer>) {
    if actions == [] then []
    else (if actions[0].Deliver? then [actions[0].offer] else []) + Deliveries(actions[1..])
  }

  /** At every rebuild the delegation is valid at the issue time of the descriptor held there. */
  predicate DelegatedAtRebuilds(anchor: TrustAnchor, held: Option<Descriptor>, actions: seq<Action>)
    decreases |actions|
  {
    actions != [] ==>
      match actions[0]
      case Deliver(o) =>
        DelegatedAtRebuilds(anchor, AcceptStep(anchor, held, o.candidate, o.now), actions[1..])
      case Rebuild =>
        && (held.Some? ==> anchor.delegated(held.value.issuedAt))
        && DelegatedAtRebuilds(anchor, held, actions[1..])
  }

  predicate Trusted(anchor: TrustAnchor, held: Option<Descriptor>) {
    held.Some? ==> VerifyDescriptor(held.value, anchor).None?
  }

  /** A held descriptor can be restored exactly when the delegation was valid at its issue time. */
  lemma RestoreSucceedsIff(anchor: TrustAnchor, held: Option<Descriptor>)
    requires Trusted(anchor, held)
    ensures RestoreError(anchor, held) ==
      if held.Some? && !anchor.delegated(held.value.issuedAt) then Some(NotDelegated) else None
  {
    if held.Some? {
      assert Validated(held.value);
    }
  }

  /** Rebuilding changes nothing: the run ends where the deliveries alone end it, or stops at a refused rebuild. */
  lemma {:induction false} RebuildsAreInvisible(anchor: TrustAnchor, held: Option<Descriptor>, actions: seq<Action>)
    requires Trusted(anchor, held)
    ensures RunActions(anchor, held, actions) ==
      if DelegatedAtRebuilds(anchor, held, actions) then Ok(Run(anchor, held, Deliveries(actions)))
      else Err(NotDelegated)
    decreases |actions|
  {
    if actions != [] {
      match actions[0]
      case Deliver(o) =>
        RebuildsAreInvisible(anchor, AcceptStep(anchor, held, o.candidate, o.now), actions[1..]);
        assert ([o] + Deliveries(actions[1..]))[1..] == Deliveries(actions[1..]);
      case Rebuild =>
        RestoreSucceedsIff(anchor, held);
        RebuildsAreInvisible(anchor, held, actions[1..]);
        assert [] + Deliveries(actions[1..]) == Deliveries(actions[1..]);
    }
  }

  /** Convergence with restarts: same good candidates, same end. */
  lemma RestartedRunsConverge(anchor: TrustAnchor, xs: seq<Action>, ys: seq<Action>)
    requires OneDocumentPerPair(anchor, Deliveries(xs))
    requires forall d: Descriptor :: Offered(anchor, Deliveries(xs), d) <==> Offered(anchor, Deliveries(ys), d)
    requires DelegatedAtRebuilds(anchor, None, xs) && DelegatedAtRebuilds(anchor, None, ys)
    ensures RunActions(anchor, None, xs).Ok? && RunActions(anchor, None, xs) == RunActions(anchor, None, ys)
    ensures IsGreatest(anchor, Deliveries(xs), RunActions(anchor, None, xs).value)
  {
    RebuildsAreInvisible(anchor, None, xs);
    RebuildsAreInvisible(anchor, None, ys);
    RunsConverge(anchor, Deliveries(xs), Deliveries(ys));
    RunEndsAtGreatest(anchor, Deliveries(xs));
  }
}
