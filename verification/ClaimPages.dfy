/** The claim event stream: the page validator, and a reader that follows pages from a checkpoint. */
module ClaimPages {
  import opened Wrappers

  /** A claim lifecycle event; what it says is of no concern here. */
  datatype Event = Event(id: string, subject: string, revision: nat)

  datatype Cursor = Cursor(streamId: string, position: nat)
  datatype Item = Item(position: nat, event: Event)
  datatype Page = Page(streamId: string, after: Cursor, items: seq<Item>, next: Cursor, highWatermark: nat)

  datatype PageError = StreamMismatch | GapOrDuplicate | CursorNotAtLast | WatermarkBehind

  function Positions(items: seq<Item>): (r: seq<nat>) {
    seq(|items|, i requires 0 <= i < |items| => items[i].position)
  }

  function Range(from: nat, n: nat): (r: seq<nat>) { seq(n, i => from + i) }

  /** `ClaimEventPage._contiguous`; `None` where it returns. */
  function Contiguous(p: Page): (e: Option<PageError>) {
    var positions := Positions(p.items);
    var last := if positions == [] then p.after.position else positions[|positions| - 1];
    if p.after.streamId != p.streamId || p.next.streamId != p.streamId then Some(StreamMismatch)
    else if positions != Range(p.after.position + 1, |positions|) then Some(GapOrDuplicate)
    else if p.next.position != last then Some(CursorNotAtLast)
    else if p.highWatermark < last then Some(WatermarkBehind)
    else None
  }

  predicate ValidPage(p: Page) { Contiguous(p).None? }

  /** A valid page is a run of consecutive positions from just after one cursor up to the next. */
  lemma ValidPageIff(p: Page)
    ensures ValidPage(p) <==>
      && p.after.streamId == p.next.streamId == p.streamId
      && p.next.position == p.after.position + |p.items| <= p.highWatermark
      && forall i :: 0 <= i < |p.items| ==> p.items[i].position == p.after.position + 1 + i
  {
    var positions := Positions(p.items);
    if forall i :: 0 <= i < |p.items| ==> p.items[i].position == p.after.position + 1 + i {
      assert positions == Range(p.after.position + 1, |positions|);
    } else {
      var i :| 0 <= i < |p.items| && p.items[i].position != p.after.position + 1 + i;
      assert positions[i] != Range(p.after.position + 1, |positions|)[i];
    }
  }

  /** Which error an invalid page raises: the first of the four rules it breaks, each said on the page's fields. */
  lemma PageErrorIs(p: Page)
    ensures var sameStream := p.after.streamId == p.streamId == p.next.streamId;
      var inSequence := forall i :: 0 <= i < |p.items| ==> p.items[i].position == p.after.position + 1 + i;
      var last := p.after.position + |p.items|;
      && (Contiguous(p) == Some(StreamMismatch) <==> !sameStream)
      && (Contiguous(p) == Some(GapOrDuplicate) <==> sameStream && !inSequence)
      && (Contiguous(p) == Some(CursorNotAtLast) <==> sameStream && inSequence && p.next.position != last)
      && (Contiguous(p) == Some(WatermarkBehind) <==>
            sameStream && inSequence && p.next.position == last && p.highWatermark < last)
  {
    var positions := Positions(p.items);
    if forall i :: 0 <= i < |p.items| ==> p.items[i].position == p.after.position + 1 + i {
      assert positions == Range(p.after.position + 1, |positions|);
    } else {
      var i :| 0 <= i < |p.items| && p.items[i].position != p.after.position + 1 + i;
      assert positions[i] != Range(p.after.position + 1, |positions|)[i];
    }
  }

  /** The page tells the truth about a log: its items are the log's events there, its watermark is in the log. */
  predicate Honest(p: Page, log: seq<Event>) {
    && p.highWatermark <= |log|
    && forall i :: 0 <= i < |p.items| ==>
         1 <= p.items[i].position <= |log| && p.items[i].event == log[p.items[i].position - 1]
  }

  // The reader

  /** What a reader holds, and the cursor it would ask from next. */
  datatype Reader = Reader(held: seq<Event>, cursor: nat)

  function NewEvents(items: seq<Item>, cursor: nat): (r: seq<Event>) {
    if items == [] then []
    else (if items[0].position > cursor then [items[0].event] else []) + NewEvents(items[1..], cursor)
  }

  /** A valid page asked for from a known position: append what lies past the checkpoint, then move it. */
  function Follow(r: Reader, p: Page): (q: Reader) {
    if !ValidPage(p) || p.after.position > r.cursor then r
    else Reader(r.held + NewEvents(p.items, r.cursor), if p.next.position > r.cursor then p.next.position else r.cursor)
  }

  /** The reader as it runs. */
  class ClaimReader {
    var held: seq<Event>
    var cursor: nat

    constructor ()
      ensures held == [] && cursor == 0
    {
      held, cursor := [], 0;
    }

    method Receive(p: Page)
      modifies this
      ensures Reader(held, cursor) == Follow(Reader(old(held), old(cursor)), p)
    {
      if !ValidPage(p) || p.after.position > cursor { return; }
      var i := 0;
      while i < |p.items|
        invariant i <= |p.items| && cursor == old(cursor)
        invariant held + NewEvents(p.items[i..], cursor) == old(held) + NewEvents(p.items, cursor)
      {
        assert p.items[i..][1..] == p.items[i + 1..];
        if p.items[i].position > cursor {
          held := held + [p.items[i].event];
        }
        i := i + 1;
      }
      if p.next.position > cursor {
        cursor := p.next.position;
      }
    }
  }

  /** The items are the log's events from `from` on. */
  predicate Follows(items: seq<Item>, from: nat, log: seq<Event>) {
    && from + |items| <= |log|
    && forall i :: 0 <= i < |items| ==> items[i] == Item(from + 1 + i, log[from + i])
  }

  lemma {:induction false} NothingNew(items: seq<Item>, from: nat, cursor: nat, log: seq<Event>)
    requires Follows(items, from, log) && from + |items| <= cursor
    ensures NewEvents(items, cursor) == []
    decreases |items|
  {
    if items != [] {
      NothingNew(items[1..], from + 1, cursor, log);
    }
  }

  lemma {:induction false} AllNew(items: seq<Item>, from: nat, cursor: nat, log: seq<Event>)
    requires Follows(items, from, log) && from >= cursor
    ensures NewEvents(items, cursor) == log[from..from + |items|]
    decreases |items|
  {
    if items != [] {
      AllNew(items[1..], from + 1, cursor, log);
      assert log[from..from + |items|] == [log[from]] + log[from + 1..from + |items|];
    }
  }

  /** The items past the cursor are the tail of the page. */
  lemma {:induction false} NewEventsAreTail(items: seq<Item>, from: nat, cursor: nat, log: seq<Event>)
    requires Follows(items, from, log) && from <= cursor <= from + |items|
    ensures NewEvents(items, cursor) == log[cursor..from + |items|]
    decreases |items|
  {
    if from == cursor {
      AllNew(items, from, cursor, log);
    } else {
      NewEventsAreTail(items[1..], from + 1, cursor, log);
    }
  }

  /** Holding the prefix of the log up to the cursor is kept by every honest page, re-reads included. */
  lemma FollowKeepsPrefix(r: Reader, p: Page, log: seq<Event>)
    requires r.cursor <= |log| && r.held == log[..r.cursor] && Honest(p, log)
    ensures var q := Follow(r, p);
      && r.cursor <= q.cursor <= |log| && q.held == log[..q.cursor]
      && (ValidPage(p) && p.after.position <= r.cursor ==> q.cursor >= p.next.position)
      && (q.cursor > r.cursor ==> q.cursor <= p.highWatermark)
  {
    if ValidPage(p) && p.after.position <= r.cursor {
      PageFollowed(r, p, log);
      if p.next.position > r.cursor {
        assert log[..r.cursor] + log[r.cursor..p.next.position] == log[..p.next.position];
      }
    }
  }

  lemma PageFollowed(r: Reader, p: Page, log: seq<Event>)
    requires r.cursor <= |log| && Honest(p, log) && ValidPage(p) && p.after.position <= r.cursor
    ensures p.next.position <= p.highWatermark <= |log|
    ensures NewEvents(p.items, r.cursor) == if p.next.position > r.cursor then log[r.cursor..p.next.position] else []
  {
    ValidPageIff(p);
    assert Follows(p.items, p.after.position, log);
    if p.next.position > r.cursor {
      NewEventsAreTail(p.items, p.after.position, r.cursor, log);
    } else {
      NothingNew(p.items, p.after.position, r.cursor, log);
    }
  }

  // A log that grows while it is read

  /** One exchange: the log as the server had it, and the page it answered with. */
  datatype Exchange = Exchange(log: seq<Event>, page: Page)

  predicate GrowingHonest(xs: seq<Exchange>) {
    && (forall i :: 0 <= i < |xs| ==> Honest(xs[i].page, xs[i].log))
    && (forall i, j :: 0 <= i < j < |xs| ==> xs[i].log <= xs[j].log)
  }

  function FollowAll(r: Reader, xs: seq<Exchange>): (q: Reader) {
    if xs == [] then r else Follow(FollowAll(r, xs[..|xs| - 1]), xs[|xs| - 1].page)
  }

  /** The largest watermark the reader has been shown. */
  function Watermark(xs: seq<Exchange>): (n: nat) {
    if xs == [] then 0
    else
      var before, last := Watermark(xs[..|xs| - 1]), xs[|xs| - 1].page.highWatermark;
      if last > before then last else before
  }

  /**
   * Any chain of pages, of any sizes and with any re-reads, leaves the reader with exactly the log's prefix up to
   * its cursor: every event once, in order, and the cursor never past the high watermark.
   */
  lemma {:induction false} ReaderHoldsPrefix(xs: seq<Exchange>)
    requires xs != [] && GrowingHonest(xs)
    ensures var r, log := FollowAll(Reader([], 0), xs), xs[|xs| - 1].log;
      r.cursor <= |log| && r.held == log[..r.cursor] && r.cursor <= Watermark(xs)
    decreases |xs|
  {
    var n := |xs| - 1;
    var before := xs[..n];
    if before == [] {
      FollowKeepsPrefix(Reader([], 0), xs[n].page, xs[n].log);
    } else {
      ReaderHoldsPrefix(before);
      var r := FollowAll(Reader([], 0), before);
      assert xs[n - 1].log <= xs[n].log;
      assert xs[n - 1].log[..r.cursor] == xs[n].log[..r.cursor];
      FollowKeepsPrefix(r, xs[n].page, xs[n].log);
    }
  }

  /** Every page is valid and starts where the reader stood when it asked. */
  predicate AskedInTurn(xs: seq<Exchange>) {
    xs != [] ==>
      && AskedInTurn(xs[..|xs| - 1])
      && ValidPage(xs[|xs| - 1].page)
      && xs[|xs| - 1].page.after.position == FollowAll(Reader([], 0), xs[..|xs| - 1]).cursor
  }

  function ItemCount(xs: seq<Exchange>): (n: nat) {
    if xs == [] then 0 else ItemCount(xs[..|xs| - 1]) + |xs[|xs| - 1].page.items|
  }

  /**
   * Catching up: a reader that asks each page from where it stands holds exactly the first events of the log, one
   * for each item it was sent, and the whole log exactly when it was sent as many items as the log has events.
   */
  lemma {:induction false} AskingInTurnCatchesUp(xs: seq<Exchange>)
    requires xs != [] && GrowingHonest(xs) && AskedInTurn(xs)
    ensures var r, log := FollowAll(Reader([], 0), xs), xs[|xs| - 1].log;
      && r.cursor == ItemCount(xs) <= |log|
      && r.held == log[..ItemCount(xs)]
      && (r.held == log <==> ItemCount(xs) == |log|)
    decreases |xs|
  {
    var n := |xs| - 1;
    ReaderHoldsPrefix(xs);
    ValidPageIff(xs[n].page);
    if n > 0 {
      AskingInTurnCatchesUp(xs[..n]);
    }
    CursorAdvances(xs);
  }

  /** The cursor moves by as many events as the page has items. */
  lemma CursorAdvances(xs: seq<Exchange>)
    requires xs != [] && AskedInTurn(xs)
    ensures var before := FollowAll(Reader([], 0), xs[..|xs| - 1]).cursor;
      FollowAll(Reader([], 0), xs).cursor == before + |xs[|xs| - 1].page.items|
  {
    var n := |xs| - 1;
    ValidPageIff(xs[n].page);
  }

  /** While no page comes back empty, as many requests as the log has events are enough. */
  lemma FullPagesReachTheEnd(xs: seq<Exchange>)
    requires xs != [] && GrowingHonest(xs) && AskedInTurn(xs)
    requires forall i :: 0 <= i < |xs| ==> xs[i].page.items != []
    requires |xs| >= |xs[|xs| - 1].log|
    ensures FollowAll(Reader([], 0), xs).held == xs[|xs| - 1].log
  {
    AskingInTurnCatchesUp(xs);
    FullPagesMakeProgress(xs);
  }

  lemma {:induction false} FullPagesMakeProgress(xs: seq<Exchange>)
    requires forall i :: 0 <= i < |xs| ==> xs[i].page.items != []
    ensures ItemCount(xs) >= |xs|
    decreases |xs|
  {
    if xs != [] {
      FullPagesMakeProgress(xs[..|xs| - 1]);
    }
  }
}
