/** The OpenAI tool transcript check: assistant tool calls and the tool messages that answer them. */
module Transcript {
  import opened Wrappers

  /** An id after `str(...)`; `Missing` is an absent or falsy one. */
  datatype CallId = Missing | Id(text: string)

  datatype Message = Assistant(calls: seq<CallId>) | Tool(callId: CallId) | Other

  datatype Outcome = Valid | MissingId(index: nat) | Unmatched(index: nat) | Unanswered(ids: set<string>)

  /** The ids an assistant message adds to the open ones. */
  function Declared(calls: seq<CallId>): (ids: set<string>) {
    set i | 0 <= i < |calls| && calls[i].Id? :: calls[i].text
  }

  predicate AllNamed(calls: seq<CallId>) {
    forall i :: 0 <= i < |calls| ==> calls[i].Id?
  }

  /** One message on the set of open ids, at the given index. */
  function Step(m: Message, index: nat, open: set<string>): (r: Result<set<string>, Outcome>) {
    match m
    case Assistant(calls) => if AllNamed(calls) then Ok(open + Declared(calls)) else Err(MissingId(index))
    case Tool(callId) =>
      if callId.Missing? || callId.text !in open then Err(Unmatched(index)) else Ok(open - {callId.text})
    case Other => Ok(open)
  }

  function CheckFrom(ms: seq<Message>, i: nat, open: set<string>): (r: Outcome)
    requires i <= |ms|
    decreases |ms| - i
  {
    if i == |ms| then (if open == {} then Valid else Unanswered(open))
    else match Step(ms[i], i, open)
      case Err(e) => e
      case Ok(next) => CheckFrom(ms, i + 1, next)
  }

  /** `validate_openai_tool_transcript`, with its nested loops over one mutable set. */
  method ValidateToolTranscript(ms: seq<Message>) returns (r: Outcome)
    ensures r == CheckFrom(ms, 0, {})
  {
    var open: set<string> := {};
    for index := 0 to |ms|
      invariant CheckFrom(ms, 0, {}) == CheckFrom(ms, index, open)
    {
      match ms[index] {
        case Assistant(calls) =>
          var before := open;
          for k := 0 to |calls|
            invariant AllNamed(calls[..k])
            invariant open == before + Declared(calls[..k])
          {
            if calls[k].Missing? { return MissingId(index); }
            assert calls[..k + 1] == calls[..k] + [calls[k]];
            DeclaredMore(calls[..k], calls[k]);
            open := open + {calls[k].text};
          }
          assert calls[..|calls|] == calls;
        case Tool(callId) =>
          if callId.Missing? || callId.text !in open { return Unmatched(index); }
          open := open - {callId.text};
        case Other =>
      }
    }
    r := if open == {} then Valid else Unanswered(open);
  }

  lemma DeclaredMore(calls: seq<CallId>, call: CallId)
    requires call.Id?
    ensures Declared(calls + [call]) == Declared(calls) + {call.text}
  {
    var more := calls + [call];
    assert more[|calls|] == call;
    assert forall i :: 0 <= i < |calls| ==> more[i] == calls[i];
  }

  // The language, one id at a time

  datatype Event = Declare | Answer

  /** What one assistant message says about `id`: one event per call that names it. */
  function CallEvents(calls: seq<CallId>, id: string): (es: seq<Event>) {
    if calls == [] then []
    else (if calls[0] == Id(id) then [Declare] else []) + CallEvents(calls[1..], id)
  }

  function MessageEvents(m: Message, id: string): (es: seq<Event>) {
    match m
    case Assistant(calls) => CallEvents(calls, id)
    case Tool(callId) => if callId == Id(id) then [Answer] else []
    case Other => []
  }

  /** The declare/answer events of `id` in the first `i` messages. */
  function Events(ms: seq<Message>, i: nat, id: string): (es: seq<Event>)
    requires i <= |ms|
  {
    if i == 0 then [] else Events(ms, i - 1, id) + MessageEvents(ms[i - 1], id)
  }

  /** A block: some declares, one or more, and the one answer that settles them. */
  function Block(declares: nat): (es: seq<Event>) {
    seq(declares, _ => Declare) + [Answer]
  }

  function Blocks(sizes: seq<nat>): (es: seq<Event>) {
    if sizes == [] then [] else Block(sizes[0]) + Blocks(sizes[1..])
  }

  predicate Positive(sizes: seq<nat>) {
    forall k :: 0 <= k < |sizes| ==> sizes[k] >= 1
  }

  ghost predicate IsBlocks(es: seq<Event>) {
    exists sizes: seq<nat> :: Positive(sizes) && es == Blocks(sizes)
  }

  /** Blocks, then declares not answered yet. */
  ghost predicate IsOpen(es: seq<Event>) {
    exists n: nat :: EndsInDeclares(es, n)
  }

  ghost predicate EndsInDeclares(es: seq<Event>, n: nat) {
    1 <= n <= |es| && IsBlocks(es[..|es| - n]) && es[|es| - n..] == seq(n, _ => Declare)
  }

  predicate NamesIds(m: Message) {
    match m
    case Assistant(calls) => AllNamed(calls)
    case Tool(callId) => callId.Id?
    case Other => true
  }

  /** The whole language: every call and answer is named, and each id's events are blocks. */
  ghost predicate WellFormed(ms: seq<Message>) {
    && (forall i :: 0 <= i < |ms| ==> NamesIds(ms[i]))
    && forall id: string :: IsBlocks(Events(ms, |ms|, id))
  }

  // A state per id

  /** Whether the events leave the id open, when they are legal so far. */
  datatype Status = Settled | Pending | Broken

  function Next(s: Status, e: Event): (t: Status) {
    match (s, e)
    case (Broken, _) => Broken
    case (_, Declare) => Pending
    case (Pending, Answer) => Settled
    case (Settled, Answer) => Broken
  }

  function After(s: Status, es: seq<Event>): (t: Status) {
    if es == [] then s else Next(After(s, es[..|es| - 1]), es[|es| - 1])
  }

  lemma {:induction false} AfterConcat(s: Status, xs: seq<Event>, ys: seq<Event>)
    ensures After(s, xs + ys) == After(After(s, xs), ys)
    decreases |ys|
  {
    if ys == [] {
      assert xs + ys == xs;
    } else {
      var n := |ys| - 1;
      AfterConcat(s, xs, ys[..n]);
      assert (xs + ys)[..|xs + ys| - 1] == xs + ys[..n];
    }
  }

  lemma {:induction false} AfterDeclares(s: Status, n: nat)
    requires s != Broken
    ensures After(s, seq(n, _ => Declare)) == if n == 0 then s else Pending
  {
    if n > 0 {
      AfterDeclares(s, n - 1);
      assert seq(n, _ => Declare)[..n - 1] == seq(n - 1, _ => Declare);
    }
  }

  lemma {:induction false} AfterBlocks(sizes: seq<nat>)
    requires Positive(sizes)
    ensures After(Settled, Blocks(sizes)) == Settled
  {
    if sizes != [] {
      var head := seq(sizes[0], _ => Declare);
      AfterDeclares(Settled, sizes[0]);
      AfterConcat(Settled, head, [Answer]);
      assert [Answer][..0] == [];
      AfterConcat(Settled, Block(sizes[0]), Blocks(sizes[1..]));
      AfterBlocks(sizes[1..]);
    }
  }

  lemma {:induction false} BlocksMore(sizes: seq<nat>, n: nat)
    ensures Blocks(sizes + [n]) == Blocks(sizes) + Block(n)
  {
    if sizes == [] {
      assert sizes + [n] == [n] && [n][1..] == [];
      assert Blocks([n]) == Block(n) + [] == [] + Block(n);
    } else {
      BlocksMore(sizes[1..], n);
      assert (sizes + [n])[1..] == sizes[1..] + [n];
      assert Block(sizes[0]) + (Blocks(sizes[1..]) + Block(n)) == Blocks(sizes) + Block(n);
    }
  }

  lemma DeclareOpens(es: seq<Event>)
    requires IsBlocks(es) || IsOpen(es)
    ensures IsOpen(es + [Declare])
  {
    var more := es + [Declare];
    if IsBlocks(es) {
      assert more[..|more| - 1] == es && more[|more| - 1..] == seq(1, _ => Declare);
      assert EndsInDeclares(more, 1);
    } else {
      var k: nat :| EndsInDeclares(es, k);
      assert more[..|more| - (k + 1)] == es[..|es| - k];
      assert more[|more| - (k + 1)..] == es[|es| - k..] + [Declare] == seq(k + 1, _ => Declare);
      assert EndsInDeclares(more, k + 1);
    }
  }

  lemma AnswerSettles(es: seq<Event>)
    requires IsOpen(es)
    ensures IsBlocks(es + [Answer])
  {
    var k: nat :| EndsInDeclares(es, k);
    var before, declares := es[..|es| - k], seq(k, _ => Declare);
    var sizes: seq<nat> :| Positive(sizes) && before == Blocks(sizes);
    assert es == before + declares;
    AppendBlock(sizes, k);
    assert before + declares + [Answer] == before + Block(k);
  }

  lemma AppendBlock(sizes: seq<nat>, k: nat)
    requires Positive(sizes) && k >= 1
    ensures IsBlocks(Blocks(sizes) + Block(k))
  {
    BlocksMore(sizes, k);
    assert Positive(sizes + [k]);
  }

  /** The status of an id says what shape its events have. */
  lemma {:induction false} StatusMeansShape(es: seq<Event>)
    ensures After(Settled, es) == Settled ==> IsBlocks(es)
    ensures After(Settled, es) == Pending ==> IsOpen(es)
    decreases |es|
  {
    if es == [] {
      assert es == Blocks([]);
    } else {
      var n := |es| - 1;
      var before := es[..n];
      assert es == before + [es[n]];
      StatusMeansShape(before);
      if After(Settled, before) != Broken {
        if es[n] == Declare {
          DeclareOpens(before);
        } else if After(Settled, before) == Pending {
          AnswerSettles(before);
        }
      }
    }
  }

  lemma SettledIffBlocks(es: seq<Event>)
    ensures After(Settled, es) == Settled <==> IsBlocks(es)
  {
    StatusMeansShape(es);
    if IsBlocks(es) {
      var sizes: seq<nat> :| Positive(sizes) && es == Blocks(sizes);
      AfterBlocks(sizes);
    }
  }

  // The loop tracks every id at once

  /** The open set is exactly the ids whose events so far leave them pending, and none is broken. */
  ghost predicate Tracks(ms: seq<Message>, i: nat, open: set<string>)
    requires i <= |ms|
  {
    forall id: string ::
      After(Settled, Events(ms, i, id)) == if id in open then Pending else Settled
  }

  lemma {:induction false} AfterCalls(s: Status, calls: seq<CallId>, id: string)
    requires s != Broken
    ensures After(s, CallEvents(calls, id)) == if id in Declared(calls) then Pending else s
    decreases |calls|
  {
    if calls != [] {
      var rest := calls[1..];
      var first := if calls[0] == Id(id) then [Declare] else [];
      AfterConcat(s, first, CallEvents(rest, id));
      assert [Declare][..0] == [];
      AfterCalls(After(s, first), rest, id);
      assert forall k :: 0 <= k < |rest| ==> rest[k] == calls[k + 1];
      assert id in Declared(calls) <==> calls[0] == Id(id) || id in Declared(rest) by {
        DeclaredFirst(calls);
      }
    }
  }

  lemma DeclaredFirst(calls: seq<CallId>)
    requires calls != []
    ensures Declared(calls) == (if calls[0].Id? then {calls[0].text} else {}) + Declared(calls[1..])
  {
    assert forall k :: 0 <= k < |calls| - 1 ==> calls[1..][k] == calls[k + 1];
    forall id | id in Declared(calls)
      ensures id in (if calls[0].Id? then {calls[0].text} else {}) + Declared(calls[1..])
    {
      var k :| 0 <= k < |calls| && calls[k] == Id(id);
      if k > 0 {
        assert calls[1..][k - 1] == Id(id);
      }
    }
    forall id | id in Declared(calls[1..]) ensures id in Declared(calls) {
      var k :| 0 <= k < |calls[1..]| && calls[1..][k] == Id(id);
      assert calls[k + 1] == Id(id);
    }
  }

  lemma EventsStep(ms: seq<Message>, i: nat, open: set<string>, id: string)
    requires i < |ms| && Tracks(ms, i, open)
    ensures After(Settled, Events(ms, i + 1, id)) ==
      After(if id in open then Pending else Settled, MessageEvents(ms[i], id))
  {
    AfterConcat(Settled, Events(ms, i, id), MessageEvents(ms[i], id));
  }

  lemma AfterOne(s: Status, e: Event)
    ensures After(s, [e]) == Next(s, e)
  {
    assert [e][..0] == [];
  }

  /** A message the loop accepts keeps the tracking. */
  lemma AcceptedStepTracks(ms: seq<Message>, i: nat, open: set<string>)
    requires i < |ms| && Tracks(ms, i, open) && Step(ms[i], i, open).Ok?
    ensures NamesIds(ms[i]) && Tracks(ms, i + 1, Step(ms[i], i, open).value)
  {
    var next := Step(ms[i], i, open).value;
    forall id: string ensures After(Settled, Events(ms, i + 1, id)) == if id in next then Pending else Settled {
      var s := if id in open then Pending else Settled;
      EventsStep(ms, i, open, id);
      match ms[i]
      case Assistant(calls) => AfterCalls(s, calls, id);
      case Tool(callId) => AfterOne(s, Answer);
      case Other =>
    }
  }

  /** A message the loop refuses names no id, or breaks the one it names. */
  lemma RefusedStepBreaks(ms: seq<Message>, i: nat, open: set<string>) returns (id: string)
    requires i < |ms| && Tracks(ms, i, open) && Step(ms[i], i, open).Err?
    ensures !NamesIds(ms[i]) || After(Settled, Events(ms, i + 1, id)) == Broken
  {
    id := "";
    if NamesIds(ms[i]) {
      id := ms[i].callId.text;
      EventsStep(ms, i, open, id);
      AfterOne(Settled, Answer);
    }
  }

  lemma BrokenConcat(xs: seq<Event>, ys: seq<Event>)
    requires After(Settled, xs) == Broken
    ensures After(Settled, xs + ys) == Broken
  {
    AfterConcat(Settled, xs, ys);
    BrokenStays(ys);
  }

  lemma BrokenNext(ms: seq<Message>, i: nat, id: string)
    requires i < |ms| && After(Settled, Events(ms, i, id)) == Broken
    ensures After(Settled, Events(ms, i + 1, id)) == Broken
  {
    BrokenConcat(Events(ms, i, id), MessageEvents(ms[i], id));
  }

  lemma {:induction false} BrokenStays(es: seq<Event>)
    ensures After(Broken, es) == Broken
    decreases |es|
  {
    if es != [] {
      BrokenStays(es[..|es| - 1]);
    }
  }

  // What each outcome means

  lemma OpenMeansPending(es: seq<Event>)
    requires IsOpen(es)
    ensures After(Settled, es) == Pending
  {
    var n: nat :| EndsInDeclares(es, n);
    var before, declares := es[..|es| - n], seq(n, _ => Declare);
    assert es == before + declares;
    SettledIffBlocks(before);
    AfterConcat(Settled, before, declares);
    AfterDeclares(Settled, n);
  }

  /** An id's events are in order so far: blocks, perhaps with declares still to be answered. */
  ghost predicate InOrder(es: seq<Event>) { IsBlocks(es) || IsOpen(es) }

  lemma ShapeMeansStatus(es: seq<Event>)
    ensures IsBlocks(es) <==> After(Settled, es) == Settled
    ensures IsOpen(es) <==> After(Settled, es) == Pending
  {
    SettledIffBlocks(es);
    StatusMeansShape(es);
    if IsOpen(es) {
      OpenMeansPending(es);
    }
  }

  /** Nothing is wrong with the first `i` messages: all named, and every id in order. */
  ghost predicate Legal(ms: seq<Message>, i: nat)
    requires i <= |ms|
  {
    && (forall k :: 0 <= k < i ==> NamesIds(ms[k]))
    && forall id: string :: InOrder(Events(ms, i, id))
  }

  /** What the check says about a transcript, without following the loop. */
  ghost predicate Describes(ms: seq<Message>, r: Outcome) {
    match r
    case Valid => WellFormed(ms)
    case MissingId(i) => i < |ms| && Legal(ms, i) && ms[i].Assistant? && !NamesIds(ms[i])
    case Unmatched(i) =>
      && i < |ms| && Legal(ms, i) && ms[i].Tool?
      && (ms[i].callId.Id? ==> IsBlocks(Events(ms, i, ms[i].callId.text)))
    case Unanswered(ids) =>
      Legal(ms, |ms|) && ids != {} && forall id: string :: id in ids <==> IsOpen(Events(ms, |ms|, id))
  }

  lemma LegalBefore(ms: seq<Message>, i: nat)
    requires i < |ms| && Legal(ms, i + 1)
    ensures Legal(ms, i)
  {
    forall id: string ensures InOrder(Events(ms, i, id)) {
      assert InOrder(Events(ms, i + 1, id));
      InOrderBefore(ms, i, id);
    }
  }

  lemma InOrderBefore(ms: seq<Message>, i: nat, id: string)
    requires i < |ms| && InOrder(Events(ms, i + 1, id))
    ensures InOrder(Events(ms, i, id))
  {
    ShapeMeansStatus(Events(ms, i, id));
    ShapeMeansStatus(Events(ms, i + 1, id));
    if After(Settled, Events(ms, i, id)) == Broken {
      BrokenNext(ms, i, id);
    }
  }

  /** The loop gets past messages with which nothing is wrong. */
  lemma {:induction false} LoopReaches(ms: seq<Message>, i: nat) returns (open: set<string>)
    requires i <= |ms| && Legal(ms, i)
    ensures Tracks(ms, i, open) && CheckFrom(ms, 0, {}) == CheckFrom(ms, i, open)
    decreases i
  {
    if i == 0 {
      open := {};
    } else {
      LegalBefore(ms, i - 1);
      var before := LoopReaches(ms, i - 1);
      open := LegalStep(ms, i - 1, before);
    }
  }

  lemma LegalStep(ms: seq<Message>, i: nat, before: set<string>) returns (open: set<string>)
    requires i < |ms| && Legal(ms, i + 1) && Tracks(ms, i, before)
    ensures Tracks(ms, i + 1, open) && CheckFrom(ms, i, before) == CheckFrom(ms, i + 1, open)
  {
    if Step(ms[i], i, before).Err? {
      RefusedStepIllegal(ms, i, before);
    }
    AcceptedStepTracks(ms, i, before);
    open := Step(ms[i], i, before).value;
  }

  lemma BrokenNotInOrder(es: seq<Event>)
    requires After(Settled, es) == Broken
    ensures !InOrder(es)
  {
    ShapeMeansStatus(es);
  }

  lemma RefusedStepIllegal(ms: seq<Message>, i: nat, open: set<string>)
    requires i < |ms| && Tracks(ms, i, open) && Step(ms[i], i, open).Err?
    ensures !Legal(ms, i + 1)
  {
    var id := RefusedStepBreaks(ms, i, open);
    if NamesIds(ms[i]) {
      BrokenNotInOrder(Events(ms, i + 1, id));
    }
  }

  lemma TracksShape(ms: seq<Message>, i: nat, open: set<string>, id: string)
    requires i <= |ms| && Tracks(ms, i, open)
    ensures id in open <==> IsOpen(Events(ms, i, id))
    ensures id !in open <==> IsBlocks(Events(ms, i, id))
  {
    ShapeMeansStatus(Events(ms, i, id));
  }

  lemma DescribedIsReported(ms: seq<Message>, r: Outcome)
    requires Describes(ms, r)
    ensures r == CheckFrom(ms, 0, {})
  {
    match r
    case MissingId(i) => var open := LoopReaches(ms, i);
    case Unmatched(i) =>
      var open := LoopReaches(ms, i);
      if ms[i].callId.Id? {
        TracksShape(ms, i, open, ms[i].callId.text);
      }
    case Valid =>
      forall id: string ensures InOrder(Events(ms, |ms|, id)) {
        assert IsBlocks(Events(ms, |ms|, id));
      }
      var open := LoopReaches(ms, |ms|);
      if open != {} {
        var id :| id in open;
        TracksShape(ms, |ms|, open, id);
      }
    case Unanswered(ids) =>
      var open := LoopReaches(ms, |ms|);
      forall id ensures id in open <==> id in ids {
        TracksShape(ms, |ms|, open, id);
      }
      assert open == ids;
  }

  lemma {:induction false} ReportedIsDescribed(ms: seq<Message>, i: nat, open: set<string>)
    requires i <= |ms| && Tracks(ms, i, open)
    requires forall k :: 0 <= k < i ==> NamesIds(ms[k])
    ensures Describes(ms, CheckFrom(ms, i, open))
    decreases |ms| - i
  {
    forall id: string ensures InOrder(Events(ms, i, id))
      ensures id in open <==> IsOpen(Events(ms, i, id))
      ensures id !in open <==> IsBlocks(Events(ms, i, id))
    {
      TracksShape(ms, i, open, id);
    }
    if i < |ms| && Step(ms[i], i, open).Ok? {
      AcceptedStepTracks(ms, i, open);
      ReportedIsDescribed(ms, i + 1, Step(ms[i], i, open).value);
    }
  }

  /**
   * The outcome is the one that describes the transcript: valid; or the first message at fault, an assistant
   * message with an unnamed call or an answer to nothing open; or all ids left open by an otherwise legal run.
   */
  lemma OutcomeIff(ms: seq<Message>, r: Outcome)
    ensures r == CheckFrom(ms, 0, {}) <==> Describes(ms, r)
  {
    forall id: string ensures IsBlocks(Events(ms, 0, id)) {
      SettledIffBlocks([]);
    }
    ReportedIsDescribed(ms, 0, {});
    if Describes(ms, r) {
      DescribedIsReported(ms, r);
    }
  }

  /**
   * The check accepts exactly the transcripts in which every call and every answer is named and, for each id by
   * itself, the events are blocks of one or more declares closed by one answer.
   */
  lemma CheckDecidesLanguage(ms: seq<Message>)
    ensures CheckFrom(ms, 0, {}) == Valid <==> WellFormed(ms)
  {
    OutcomeIff(ms, Valid);
  }
}
