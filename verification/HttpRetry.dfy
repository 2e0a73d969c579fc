/** The bounded retry loop of the shared HTTP client. Time is a counter; what the network answers is arbitrary. */
module HttpRetry {
  import opened Wrappers

  datatype Policy = Policy(attempts: int, backoff: real, retryStatuses: seq<int>, retryMethods: seq<string>)

  datatype Response = Response(status: int, text: string)

  /** What one call to the transport does. `Broken` is an exception the client does not translate. */
  datatype Attempt = Unreachable(reason: string) | Answered(response: Response) | Broken(error: string)

  datatype Outcome =
    | Returned(response: Response) | RaisedUnreachable(reason: string) | RaisedUpstream(status: int, text: string)
    | Propagated(error: string) | RaisedUnreachableState

  /** `method.upper()` for ASCII method names. */
  function Upper(s: string): (text: string) {
    if s == "" then ""
    else [if 'a' <= s[0] <= 'z' then (s[0] as int - 32) as char else s[0]] + Upper(s[1..])
  }

  /** `spelled` is the name with its small ASCII letters made capital. */
  predicate InCapitals(name: string, spelled: string) {
    && |spelled| == |name|
    && forall i :: 0 <= i < |name| ==>
         spelled[i] as int == if 97 <= name[i] as int <= 122 then name[i] as int - 32 else name[i] as int
  }

  lemma {:induction false} UpperInCapitals(name: string)
    ensures InCapitals(name, Upper(name))
  {
    if name != "" {
      UpperInCapitals(name[1..]);
    }
  }

  lemma CapitalsUnique(name: string, s: string, t: string)
    requires InCapitals(name, s) && InCapitals(name, t)
    ensures s == t
  {
    assert forall i :: 0 <= i < |s| ==> s[i] as int == t[i] as int;
  }

  /** The policy lists the method, whatever the case it is asked for in. */
  predicate Listed(p: Policy, name: string) {
    exists k :: 0 <= k < |p.retryMethods| && InCapitals(name, p.retryMethods[k])
  }

  lemma CanRetryIff(p: Policy, name: string)
    ensures CanRetry(p, name) <==> Listed(p, name)
  {
    UpperInCapitals(name);
    if k :| 0 <= k < |p.retryMethods| && InCapitals(name, p.retryMethods[k]) {
      CapitalsUnique(name, Upper(name), p.retryMethods[k]);
    }
  }

  /** A status the caller asked for, or, when it named none, any below 400. */
  predicate IsSuccess(status: int, okStatuses: Option<seq<int>>) {
    match okStatuses
    case None => status < 400
    case Some(listed) => status in listed
  }

  /** Another attempt is due after `a`, if one is left. */
  predicate Retried(p: Policy, name: string, okStatuses: Option<seq<int>>, a: Attempt) {
    match a
    case Broken(_) => false
    case Unreachable(_) => Listed(p, name)
    case Answered(r) => !IsSuccess(r.status, okStatuses) && Listed(p, name) && r.status in p.retryStatuses
  }

  /** What the last attempt brought, told by its own kind and status. */
  predicate Tells(okStatuses: Option<seq<int>>, a: Attempt, o: Outcome) {
    match o
    case Returned(r) => a == Answered(r) && IsSuccess(r.status, okStatuses)
    case RaisedUpstream(status, text) => a == Answered(Response(status, text)) && !IsSuccess(status, okStatuses)
    case RaisedUnreachable(reason) => a == Unreachable(reason)
    case Propagated(error) => a == Broken(error)
    case RaisedUnreachableState => false
  }

  lemma ConclusiveIff(p: Policy, name: string, okStatuses: Option<seq<int>>, a: Attempt)
    ensures Conclusive(p, name, okStatuses, a) <==> !Retried(p, name, okStatuses, a)
  {
    CanRetryIff(p, name);
  }

  /**
   * A request that made `k` calls: within the policy's attempts, every earlier attempt one to retry, the last one not
   * unless no attempt was left, and the outcome what the last one brought.
   */
  predicate Told(p: Policy, name: string, okStatuses: Option<seq<int>>, net: nat -> Attempt, k: nat, o: Outcome) {
    && 1 <= k && (k <= p.attempts || k == 1)
    && Tells(okStatuses, net(k), o)
    && (forall j :: 1 <= j < k ==> Retried(p, name, okStatuses, net(j)))
    && (k < p.attempts ==> !Retried(p, name, okStatuses, net(k)))
  }

  lemma LastAttemptTold(p: Policy, name: string, okStatuses: Option<seq<int>>, net: nat -> Attempt, k: nat)
    requires IsLastAttempt(p, name, okStatuses, net, k)
    ensures Told(p, name, okStatuses, net, k, Report(okStatuses, net(k)))
  {
    forall j | 1 <= j <= k
      ensures Conclusive(p, name, okStatuses, net(j)) <==> !Retried(p, name, okStatuses, net(j))
    {
      ConclusiveIff(p, name, okStatuses, net(j));
    }
  }

  lemma LastAttemptsTold(p: Policy, name: string, okStatuses: Option<seq<int>>, net: nat -> Attempt)
    ensures forall k | IsLastAttempt(p, name, okStatuses, net, k) ::
      Told(p, name, okStatuses, net, k, Report(okStatuses, net(k)))
  {
    forall k | IsLastAttempt(p, name, okStatuses, net, k)
      ensures Told(p, name, okStatuses, net, k, Report(okStatuses, net(k)))
    {
      LastAttemptTold(p, name, okStatuses, net, k);
    }
  }

  predicate CanRetry(p: Policy, name: string) { Upper(name) in p.retryMethods }

  /** `_response_ok`. */
  predicate ResponseOk(r: Response, okStatuses: Option<seq<int>>) {
    if okStatuses.Some? then r.status in okStatuses.value else r.status < 400
  }

  function Attempts(p: Policy): (n: nat)
    ensures n >= 1
  {
    if p.attempts > 1 then p.attempts else 1
  }

  /** Nothing about this attempt, by itself, calls for another one. */
  predicate Conclusive(p: Policy, name: string, okStatuses: Option<seq<int>>, a: Attempt) {
    match a
    case Broken(_) => true
    case Unreachable(_) => !CanRetry(p, name)
    case Answered(r) => ResponseOk(r, okStatuses) || !(CanRetry(p, name) && r.status in p.retryStatuses)
  }

  /** The attempt the loop stops at, counting from one: the first conclusive one, or the last allowed. */
  predicate IsLastAttempt(p: Policy, name: string, okStatuses: Option<seq<int>>, net: nat -> Attempt, k: nat) {
    && 1 <= k <= Attempts(p)
    && (Conclusive(p, name, okStatuses, net(k)) || k == Attempts(p))
    && forall j :: 1 <= j < k ==> !Conclusive(p, name, okStatuses, net(j))
  }

  /** What the caller gets from the attempt the loop stopped at. */
  function Report(okStatuses: Option<seq<int>>, a: Attempt): (o: Outcome) {
    match a
    case Unreachable(reason) => RaisedUnreachable(reason)
    case Broken(error) => Propagated(error)
    case Answered(r) => if ResponseOk(r, okStatuses) then Returned(r) else RaisedUpstream(r.status, r.text)
  }

  /** The attempts before `k` that produced a response, each once and in order. */
  function Discarded(net: nat -> Attempt, k: nat): (r: seq<nat>)
    requires k >= 1
  {
    if k == 1 then [] else Discarded(net, k - 1) + if net(k - 1).Answered? then [k - 1] else []
  }

  /** The waits before attempts 2 to `k`. */
  function Waited(p: Policy, k: nat): (t: real)
    requires k >= 1
  {
    if k == 1 || p.backoff <= 0.0 then 0.0 else Waited(p, k - 1) + p.backoff * (k - 1) as real
  }

  /** The client, with its traffic on record. */
  class ServiceHttpClient {
    const policy: Policy
    var calls: nat
    var closed: seq<nat>
    var slept: real

    constructor (policy: Policy)
      ensures this.policy == policy && calls == 0 && closed == [] && slept == 0.0
    {
      this.policy := policy;
      calls, closed, slept := 0, [], 0.0;
    }

    /** `_sleep_before_retry`. */
    method SleepBeforeRetry(attempt: nat)
      modifies this`slept
      ensures slept == old(slept) + if policy.backoff <= 0.0 then 0.0 else policy.backoff * attempt as real
    {
      if policy.backoff <= 0.0 { return; }
      slept := slept + policy.backoff * attempt as real;
    }

    /**
     * `_request`; `net(i)` is what its i-th call to the transport does. The record grows by this request's calls,
     * by the attempts whose responses it closed, and by the time it waited.
     */
    method Request(name: string, okStatuses: Option<seq<int>>, net: nat -> Attempt) returns (outcome: Outcome)
      modifies this
      ensures calls > old(calls)
      ensures var k: nat := calls - old(calls);
        && IsLastAttempt(policy, name, okStatuses, net, k)
        && outcome == Report(okStatuses, net(k)) && outcome != RaisedUnreachableState
        && closed == old(closed) + Discarded(net, k)
        && slept == old(slept) + Waited(policy, k)
      ensures Told(policy, name, okStatuses, net, calls - old(calls), outcome)
    {
      LastAttemptsTold(policy, name, okStatuses, net);
      var attempts := Attempts(policy);
      var canRetry := CanRetry(policy, name);
      var attempt := 1;
      while attempt <= attempts
        invariant 1 <= attempt <= attempts
        invariant calls == old(calls) + attempt - 1
        invariant closed == old(closed) + Discarded(net, attempt)
        invariant slept == old(slept) + Waited(policy, attempt)
        invariant forall j :: 1 <= j < attempt ==> !Conclusive(policy, name, okStatuses, net(j))
        decreases attempts - attempt
      {
        calls := calls + 1;
        match net(attempt) {
          case Broken(error) => return Propagated(error);
          case Unreachable(reason) =>
            if !canRetry || attempt >= attempts { return RaisedUnreachable(reason); }
            SleepBeforeRetry(attempt);
          case Answered(response) =>
            if ResponseOk(response, okStatuses) { return Returned(response); }
            var again := canRetry && response.status in policy.retryStatuses && attempt < attempts;
            if !again { return RaisedUpstream(response.status, response.text); }
            closed := closed + [attempt];
            SleepBeforeRetry(attempt);
        }
        attempt := attempt + 1;
      }
      // The source raises here too, but every way through the loop has returned.
      assert false;
      return RaisedUnreachableState;
    }
  }

  /** The stopping attempt is determined by what the network does. */
  lemma LastAttemptUnique(p: Policy, name: string, okStatuses: Option<seq<int>>, net: nat -> Attempt, k: nat, m: nat)
    requires IsLastAttempt(p, name, okStatuses, net, k) && IsLastAttempt(p, name, okStatuses, net, m)
    ensures k == m
  {
  }

  /** A method outside the policy is called once, whatever happens. */
  lemma NonRetryableCalledOnce(p: Policy, name: string, okStatuses: Option<seq<int>>, net: nat -> Attempt, k: nat)
    requires IsLastAttempt(p, name, okStatuses, net, k) && !CanRetry(p, name)
    ensures k == 1
  {
    assert k > 1 ==> Conclusive(p, name, okStatuses, net(1));
  }

  /** Exactly the responses before the last attempt are closed, each once, and never the one the caller gets. */
  lemma {:induction false} DiscardedOnce(net: nat -> Attempt, k: nat)
    requires k >= 1
    ensures forall j :: j in Discarded(net, k) <==> 1 <= j < k && net(j).Answered?
    ensures forall a, b :: 0 <= a < b < |Discarded(net, k)| ==> Discarded(net, k)[a] < Discarded(net, k)[b]
  {
    if k > 1 {
      DiscardedOnce(net, k - 1);
      var before := Discarded(net, k - 1);
      assert forall a :: 0 <= a < |before| ==> before[a] in before;
    }
  }

  /** With a positive backoff the total wait before attempt `k` is `backoff * k * (k - 1) / 2`. */
  lemma {:induction false} WaitedClosedForm(p: Policy, k: nat)
    requires k >= 1
    ensures Waited(p, k) == if p.backoff <= 0.0 then 0.0 else p.backoff * ((k * (k - 1) / 2) as real)
  {
    if k > 1 && p.backoff > 0.0 {
      WaitedClosedForm(p, k - 1);
      var before := (k - 1) * (k - 2) / 2;
      Triangle(k);
      assert before as real + (k - 1) as real == (k * (k - 1) / 2) as real;
      assert p.backoff * before as real + p.backoff * (k - 1) as real == p.backoff * (before as real + (k - 1) as real);
    }
  }

  lemma Triangle(k: int)
    ensures k * (k - 1) / 2 == (k - 1) * (k - 2) / 2 + (k - 1)
  {
    assert k * (k - 1) == (k - 1) * (k - 2) + 2 * (k - 1);
  }
}
