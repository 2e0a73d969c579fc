/** The server-sent event frames the SDK writes. */
module Sse {
  import opened Wrappers
  import opened Text
  import opened Utf8
  import Json
  import JsonText

  datatype Frame =
    | Comment(text: string)
    | Event(name: string, data: Json.Json, id: Option<string>)

  /** `replace(chr(10), ' ').replace(chr(13), ' ')`. */
  function OneLine(s: string): (r: string)
    ensures NewlineFree(r)
    ensures |r| == |s| && forall i :: 0 <= i < |s| ==> r[i] == if s[i] in "\n\r" then ' ' else s[i]
  {
    if s == [] then [] else [if s[0] == '\n' || s[0] == '\r' then ' ' else s[0]] + OneLine(s[1..])
  }

  predicate Stamped(id: Option<string>) { id.Some? && id.value != "" }

  /** The text of `encode_sse_event` and `encode_sse_comment`, before UTF-8. */
  function FrameText(frame: Frame, style: JsonText.Style): (s: string) {
    match frame
    case Comment(text) => ": " + text + "\n\n"
    case Event(name, data, id) =>
      var stamp := if Stamped(id) then "id: " + OneLine(id.value) + "\n" else "";
      stamp + ("event: " + name + "\n" + "data: " + JsonText.Dumps(data, style) + "\n\n")
  }

  function EncodeFrame(frame: Frame, style: JsonText.Style): (r: seq<Byte>) {
    Encode(FrameText(frame, style))
  }

  /** A connection that carried the frames one after the other. */
  function Stream(frames: seq<Frame>, style: JsonText.Style): (r: seq<Byte>) {
    if frames == [] then [] else EncodeFrame(frames[0], style) + Stream(frames[1..], style)
  }
}

/** Section 9.2.6, "Interpreting an event stream", of the WHATWG HTML Standard. */
module EventStream {
  import opened Wrappers
  import opened Text
  import opened Utf8

  datatype Dispatched = Dispatched(eventType: string, data: string, lastEventId: string)

  datatype Buffers = Buffers(data: string, eventType: string, lastEventId: string)

  /** The terminated lines of the stream; CRLF, LF and CR each end one. What follows the last terminator is dropped. */
  function Lines(s: string, current: string): (lines: seq<string>)
    decreases |s|
  {
    if s == [] then []
    else if s[0] == '\r' then
      [current] + Lines(if |s| > 1 && s[1] == '\n' then s[2..] else s[1..], [])
    else if s[0] == '\n' then [current] + Lines(s[1..], [])
    else Lines(s[1..], current + [s[0]])
  }

  /** The position of the first colon, `|line|` when there is none. */
  function ColonIndex(line: string): (i: nat)
    ensures i <= |line|
    ensures i < |line| ==> line[i] == ':'
    ensures forall j :: 0 <= j < i ==> line[j] != ':'
  {
    if line == [] || line[0] == ':' then 0 else 1 + ColonIndex(line[1..])
  }

  function WithoutLeadingSpace(s: string): (text: string) {
    if s != [] && s[0] == ' ' then s[1..] else s
  }

  function ProcessField(b: Buffers, field: string, value: string): (r: Buffers) {
    if field == "event" then b.(eventType := value)
    else if field == "data" then b.(data := b.data + value + "\n")
    else if field == "id" then (if '\0' in value then b else b.(lastEventId := value))
    else b
  }

  function ProcessLine(b: Buffers, line: string): (r: (Buffers, seq<Dispatched>)) {
    if line == [] then
      if b.data == [] then (b.(eventType := []), [])
      else
        var data := if b.data[|b.data| - 1] == '\n' then b.data[..|b.data| - 1] else b.data;
        var eventType := if b.eventType == [] then "message" else b.eventType;
        (Buffers([], [], b.lastEventId), [Dispatched(eventType, data, b.lastEventId)])
    else
      var i := ColonIndex(line);
      if i == 0 then (b, [])
      else if i == |line| then (ProcessField(b, line, []), [])
      else (ProcessField(b, line[..i], WithoutLeadingSpace(line[i + 1..])), [])
  }

  function Run(b: Buffers, lines: seq<string>): (r: (Buffers, seq<Dispatched>))
    decreases |lines|
  {
    if lines == [] then (b, [])
    else
      var (next, now) := ProcessLine(b, lines[0]);
      var (last, later) := Run(next, lines[1..]);
      (last, now + later)
  }

  function WithoutBom(s: string): (text: string) {
    if s != [] && s[0] as int == 0xFEFF then s[1..] else s
  }

  /** The events a reader dispatches from the whole stream; `None` for bytes that are not UTF-8. */
  function Interpret(bytes: seq<Byte>): (r: Option<seq<Dispatched>>) {
    match Decode(bytes)
    case None => None
    case Some(text) => Some(Run(Buffers([], [], []), Lines(WithoutBom(text), [])).1)
  }

  lemma RunCons(b: Buffers, line: string, rest: seq<string>)
    ensures var step := ProcessLine(b, line);
      Run(b, [line] + rest) == (Run(step.0, rest).0, step.1 + Run(step.0, rest).1)
  {
    assert ([line] + rest)[1..] == rest;
  }

  lemma {:induction false} RunConcat(b: Buffers, xs: seq<string>, ys: seq<string>)
    ensures Run(b, xs + ys) ==
      (Run(Run(b, xs).0, ys).0, Run(b, xs).1 + Run(Run(b, xs).0, ys).1)
    decreases |xs|
  {
    if xs == [] {
      assert xs + ys == ys;
      assert [] + Run(b, ys).1 == Run(b, ys).1;
    } else {
      var (next, now) := ProcessLine(b, xs[0]);
      RunConcat(next, xs[1..], ys);
      RunCons(b, xs[0], xs[1..]);
      RunCons(b, xs[0], xs[1..] + ys);
      assert xs == [xs[0]] + xs[1..];
      Associates([xs[0]], xs[1..], ys);
      Associates(now, Run(next, xs[1..]).1, Run(Run(next, xs[1..]).0, ys).1);
    }
  }

  lemma {:induction false} LineTaken(line: string, rest: string, current: string)
    requires NewlineFree(line)
    ensures Lines(line + "\n" + rest, current) == [current + line] + Lines(rest, [])
    decreases |line|
  {
    var s := line + "\n" + rest;
    if line == [] {
      assert s[1..] == rest && current + line == current;
    } else {
      LineTaken(line[1..], rest, current + [line[0]]);
      assert s[1..] == line[1..] + "\n" + rest;
      assert current + [line[0]] + line[1..] == current + line;
    }
  }

  /** The lines, each with its terminator. */
  function Terminated(lines: seq<string>): (s: string) {
    if lines == [] then [] else lines[0] + "\n" + Terminated(lines[1..])
  }

  lemma {:induction false} LinesTaken(lines: seq<string>, rest: string)
    requires forall i :: 0 <= i < |lines| ==> NewlineFree(lines[i])
    ensures Lines(Terminated(lines) + rest, []) == lines + Lines(rest, [])
  {
    if lines == [] {
      assert [] + rest == rest;
    } else {
      LinesTaken(lines[1..], rest);
      LineTaken(lines[0], Terminated(lines[1..]) + rest, []);
      assert Terminated(lines) + rest == lines[0] + "\n" + (Terminated(lines[1..]) + rest);
      assert [] + lines[0] == lines[0];
      assert [lines[0]] + (lines[1..] + Lines(rest, [])) == lines + Lines(rest, []);
    }
  }

  /** A line feed ends a line wherever it stands, so what follows it is read on its own. */
  lemma {:induction false} LinesSplit(s: string, rest: string, current: string)
    ensures Lines(s + "\n" + rest, current) == Lines(s + "\n", current) + Lines(rest, [])
    decreases |s|
  {
    var all, head := s + "\n" + rest, s + "\n";
    if s == [] {
      assert all[1..] == rest && head[1..] == [];
    } else if s[0] == '\r' {
      if |s| == 1 {
        assert all[2..] == rest && head[2..] == [];
      } else {
        var tail := if s[1] == '\n' then s[2..] else s[1..];
        LinesSplit(tail, rest, []);
        BreakTaken(s, rest);
        Associates([current], Lines(tail + "\n", []), Lines(rest, []));
      }
    } else {
      var next := if s[0] == '\n' then [] else current + [s[0]];
      LinesSplit(s[1..], rest, next);
      assert all[1..] == s[1..] + "\n" + rest && head[1..] == s[1..] + "\n";
      if s[0] == '\n' {
        Associates([current], Lines(s[1..] + "\n", []), Lines(rest, []));
      }
    }
  }

  lemma BreakTaken(s: string, rest: string)
    requires |s| >= 2
    ensures var all, head, tail := s + "\n" + rest, s + "\n", if s[1] == '\n' then s[2..] else s[1..];
      && |all| > 1 && |head| > 1 && all[0] == head[0] == s[0] && all[1] == head[1] == s[1]
      && (if s[1] == '\n' then all[2..] else all[1..]) == tail + "\n" + rest
      && (if s[1] == '\n' then head[2..] else head[1..]) == tail + "\n"
  {
  }

  /** The field a line speaks of: what stands before its colon, all of it if there is none. */
  function FieldName(line: string): (name: string) { line[..ColonIndex(line)] }

  function FieldValue(line: string): (value: string) {
    var i := ColonIndex(line);
    if i == |line| then [] else WithoutLeadingSpace(line[i + 1..])
  }

  predicate NoData(lines: seq<string>) {
    forall i :: 0 <= i < |lines| ==> FieldName(lines[i]) != "data"
  }

  /** The last event id once the lines are read. */
  function LastId(lines: seq<string>, id: string): (r: string) {
    if lines == [] then id
    else
      var value := FieldValue(lines[0]);
      LastId(lines[1..], if FieldName(lines[0]) == "id" && '\0' !in value then value else id)
  }

  lemma LineByField(b: Buffers, line: string)
    requires line != []
    ensures ProcessLine(b, line) ==
      (if FieldName(line) == "" then b else ProcessField(b, FieldName(line), FieldValue(line)), [])
  {
    if ColonIndex(line) == |line| {
      assert line[..|line|] == line;
    }
  }

  lemma {:induction false} RunKeepsId(b: Buffers, lines: seq<string>)
    ensures Run(b, lines).0.lastEventId == LastId(lines, b.lastEventId)
    decreases |lines|
  {
    if lines != [] {
      if lines[0] != [] {
        LineByField(b, lines[0]);
      }
      RunKeepsId(ProcessLine(b, lines[0]).0, lines[1..]);
    }
  }

  lemma {:induction false} NoDataDispatchesNothing(b: Buffers, lines: seq<string>)
    requires b.data == [] && NoData(lines)
    ensures Run(b, lines).1 == [] && Run(b, lines).0.data == []
    decreases |lines|
  {
    if lines != [] {
      assert FieldName(lines[0]) != "data";
      assert forall i :: 0 <= i < |lines[1..]| ==> lines[1..][i] == lines[i + 1];
      if lines[0] != [] {
        LineByField(b, lines[0]);
      }
      NoDataDispatchesNothing(ProcessLine(b, lines[0]).0, lines[1..]);
    }
  }

  lemma {:induction false} DataDispatches(b: Buffers, lines: seq<string>)
    requires b.data != [] || !NoData(lines)
    ensures Run(b, lines + [""]).1 != []
    decreases |lines|
  {
    if lines == [] {
      assert lines + [""] == [""] && NoData(lines);
    } else {
      var (next, now) := ProcessLine(b, lines[0]);
      assert (lines + [""])[1..] == lines[1..] + [""] && (lines + [""])[0] == lines[0];
      if lines[0] != [] {
        LineByField(b, lines[0]);
      }
      if now == [] {
        if b.data == [] && FieldName(lines[0]) != "data" {
          var i :| 0 <= i < |lines| && FieldName(lines[i]) == "data";
          assert lines[1..][i - 1] == lines[i];
        }
        DataDispatches(next, lines[1..]);
      }
    }
  }

  /** A blank line leaves nothing pending but the id. */
  lemma BlankSettles(b: Buffers, lines: seq<string>)
    ensures var r := Run(b, lines + [""]).0;
      r.data == [] && r.eventType == []
  {
    RunConcat(b, lines, [""]);
    RunCons(Run(b, lines).0, "", []);
    assert [""] == [""] + [];
  }

  lemma {:induction false} LinesNewlineFree(s: string, current: string)
    requires NewlineFree(current)
    ensures forall i :: 0 <= i < |Lines(s, current)| ==> NewlineFree(Lines(s, current)[i])
    decreases |s|
  {
    if s != [] {
      if s[0] == '\r' {
        LinesNewlineFree(if |s| > 1 && s[1] == '\n' then s[2..] else s[1..], []);
      } else if s[0] == '\n' {
        LinesNewlineFree(s[1..], []);
      } else {
        LinesNewlineFree(s[1..], current + [s[0]]);
      }
    }
  }

  /** No event the reader dispatches has a line break in its type. */
  lemma {:induction false} RunTypesNewlineFree(b: Buffers, lines: seq<string>)
    requires NewlineFree(b.eventType)
    requires forall i :: 0 <= i < |lines| ==> NewlineFree(lines[i])
    ensures forall i :: 0 <= i < |Run(b, lines).1| ==> NewlineFree(Run(b, lines).1[i].eventType)
    decreases |lines|
  {
    if lines != [] {
      var (next, now) := ProcessLine(b, lines[0]);
      RunTypesNewlineFree(next, lines[1..]);
    }
  }
}

/** Reading back what the SDK wrote. */
module SseRoundTrip {
  import opened Wrappers
  import opened Text
  import opened Utf8
  import opened Sse
  import opened EventStream
  import Json
  import JsonText
  import JsonReader
  import JsonRoundTrip

  /** The last event id after an event: a NUL makes the reader drop the whole field. */
  function NextId(id: Option<string>, lastId: string): (s: string) {
    if Stamped(id) && '\0' !in id.value then OneLine(id.value) else lastId
  }

  /** An event as the reader sees it. */
  function Seen(name: string, data: Json.Json, style: JsonText.Style, id: string): (e: Dispatched) {
    Dispatched(if name == "" then "message" else name, JsonText.Dumps(data, style), id)
  }

  /** What a reader whose last event id is `lastId` should see. */
  function Expected(frames: seq<Frame>, style: JsonText.Style, lastId: string): (r: seq<Dispatched>) {
    if frames == [] then []
    else match frames[0]
      case Comment(_) => Expected(frames[1..], style, lastId)
      case Event(name, data, id) =>
        var next := NextId(id, lastId);
        [Seen(name, data, style, next)] + Expected(frames[1..], style, next)
  }

  predicate CleanName(frame: Frame) { frame.Event? ==> NewlineFree(frame.name) }

  predicate CleanComment(frame: Frame) { frame.Comment? ==> NewlineFree(frame.text) }

  function Field(field: string, value: string): (s: string) { field + ": " + value }

  function FrameLines(frame: Frame, style: JsonText.Style): (lines: seq<string>) {
    match frame
    case Comment(text) => CommentLines(text) + [""]
    case Event(name, data, id) =>
      (if Stamped(id) then [Field("id", OneLine(id.value))] else [])
      + [Field("event", name), Field("data", JsonText.Dumps(data, style)), ""]
  }

  /** The lines of a comment, before the blank one: the first is ignored, the others are read like any line. */
  function CommentLines(text: string): (lines: seq<string>) { Lines(": " + text + "\n", []) }

  lemma CommentSplits(text: string, rest: string)
    ensures Lines(": " + text + "\n\n" + rest, []) == CommentLines(text) + [""] + Lines(rest, [])
  {
    var s := ": " + text;
    assert s + "\n\n" + rest == s + "\n" + ("\n" + rest);
    LinesSplit(s, "\n" + rest, []);
    assert ("\n" + rest)[1..] == rest;
    Associates(CommentLines(text), [""], Lines(rest, []));
  }

  /** A comment without line breaks is one line that says nothing. */
  lemma CleanCommentLines(text: string)
    requires NewlineFree(text)
    ensures CommentLines(text) == [": " + text] && FieldName(": " + text) == ""
  {
    var line := ": " + text;
    LineTaken(line, "", []);
    assert line + "\n" + "" == line + "\n" && [] + line == line;
    assert line[0] == ':' && ColonIndex(line) == 0;
  }

  lemma FrameSplits(frame: Frame, style: JsonText.Style, rest: string)
    requires JsonText.PrintableStyle(style) && CleanName(frame)
    ensures Lines(FrameText(frame, style) + rest, []) == FrameLines(frame, style) + Lines(rest, [])
  {
    match frame
    case Comment(text) => CommentSplits(text, rest);
    case Event(name, data, id) =>
      EventIsItsLines(frame, style);
      JsonText.DumpsPrintable(data, style);
      LinesTaken(FrameLines(frame, style), rest);
  }

  lemma TerminatedCons(line: string, rest: seq<string>)
    ensures Terminated([line] + rest) == line + "\n" + Terminated(rest)
  {
    assert ([line] + rest)[1..] == rest;
  }

  lemma EventTerminated(name: string, json: string)
    ensures Terminated([Field("event", name), Field("data", json), ""]) ==
      "event: " + name + "\n" + "data: " + json + "\n\n"
  {
    var e, d := Field("event", name), Field("data", json);
    TerminatedCons("", []);
    TerminatedCons(d, [""]);
    TerminatedCons(e, [d, ""]);
    assert [e, d, ""] == [e] + [d, ""] && [d, ""] == [d] + [""] && [""] == [""] + [];
    assert e == "event: " + name && d == "data: " + json;
    assert d + "\n" + "\n" == d + "\n\n";
  }

  lemma EventIsItsLines(frame: Frame, style: JsonText.Style)
    requires frame.Event?
    ensures FrameText(frame, style) == Terminated(FrameLines(frame, style))
  {
    var json := JsonText.Dumps(frame.data, style);
    var tail := [Field("event", frame.name), Field("data", json), ""];
    EventTerminated(frame.name, json);
    if Stamped(frame.id) {
      StampTerminated(OneLine(frame.id.value), tail);
    } else {
      assert [] + tail == tail;
    }
  }

  lemma StampTerminated(id: string, tail: seq<string>)
    ensures Terminated([Field("id", id)] + tail) == "id: " + id + "\n" + Terminated(tail)
  {
    TerminatedCons(Field("id", id), tail);
    assert Field("id", id) == "id: " + id;
  }

  lemma FieldLine(b: Buffers, field: string, value: string)
    requires field != [] && ':' !in field
    ensures ProcessLine(b, Field(field, value)) == (ProcessField(b, field, value), [])
  {
    var line := Field(field, value);
    assert line[|field|] == ':';
    assert forall j :: 0 <= j < |field| ==> line[j] == field[j];
    assert ColonIndex(line) == |field|;
    assert line[..|field|] == field;
    assert line[|field| + 1..] == " " + value;
  }

  lemma {:induction false} OneLineNul(s: string)
    ensures '\0' in OneLine(s) <==> '\0' in s
  {
    if s != [] {
      OneLineNul(s[1..]);
      assert s == [s[0]] + s[1..];
    }
  }

  lemma RunField(b: Buffers, field: string, value: string, rest: seq<string>)
    requires field != [] && ':' !in field
    ensures Run(b, [Field(field, value)] + rest) == Run(ProcessField(b, field, value), rest)
  {
    FieldLine(b, field, value);
    RunCons(b, Field(field, value), rest);
    var after := Run(ProcessField(b, field, value), rest);
    assert [] + after.1 == after.1;
  }

  lemma DispatchRuns(name: string, json: string, id: string)
    ensures Run(Buffers(json + "\n", name, id), [""]) ==
      (Buffers([], [], id), [Dispatched(if name == "" then "message" else name, json, id)])
  {
    var b := Buffers(json + "\n", name, id);
    RunCons(b, "", []);
    assert [""] == [""] + [];
    assert b.data[..|b.data| - 1] == json;
    var now := ProcessLine(b, "").1;
    assert now + [] == now;
  }

  lemma DataField(name: string, json: string, id: string)
    ensures ProcessField(Buffers([], name, id), "data", json) == Buffers(json + "\n", name, id)
  {
    assert [] + json + "\n" == json + "\n";
  }

  lemma DataRuns(name: string, json: string, id: string)
    ensures Run(Buffers([], name, id), [Field("data", json), ""]) ==
      (Buffers([], [], id), [Dispatched(if name == "" then "message" else name, json, id)])
  {
    DispatchRuns(name, json, id);
    RunField(Buffers([], name, id), "data", json, [""]);
    DataField(name, json, id);
    assert [Field("data", json), ""] == [Field("data", json)] + [""];
  }

  /** The three lines every event frame ends with dispatch that event. */
  lemma EventRuns(name: string, json: string, id: string)
    ensures Run(Buffers([], [], id), [Field("event", name), Field("data", json), ""]) ==
      (Buffers([], [], id), [Dispatched(if name == "" then "message" else name, json, id)])
  {
    var e, rest := Field("event", name), [Field("data", json), ""];
    DataRuns(name, json, id);
    RunField(Buffers([], [], id), "event", name, rest);
    assert [e, Field("data", json), ""] == [e] + rest;
  }

  lemma StampRuns(id: string, lastId: string, rest: seq<string>)
    requires id != ""
    ensures Run(Buffers([], [], lastId), [Field("id", OneLine(id))] + rest) ==
      Run(Buffers([], [], NextId(Some(id), lastId)), rest)
  {
    OneLineNul(id);
    RunField(Buffers([], [], lastId), "id", OneLine(id), rest);
  }

  /** The id in force after a frame. */
  function IdAfter(frame: Frame, id: string): (r: string) {
    match frame
    case Comment(text) => LastId(CommentLines(text), id)
    case Event(_, _, stamp) => NextId(stamp, id)
  }

  /** What a reader dispatches for one frame. */
  function Dispatches(frame: Frame, style: JsonText.Style, id: string): (r: seq<Dispatched>) {
    Run(Buffers([], [], id), FrameLines(frame, style)).1
  }

  lemma BlankKeepsId(lines: seq<string>, id: string)
    ensures LastId(lines + [""], id) == LastId(lines, id)
  {
    if lines == [] {
      assert (lines + [""])[1..] == [];
    } else {
      assert (lines + [""])[1..] == lines[1..] + [""];
      var value := FieldValue(lines[0]);
      BlankKeepsId(lines[1..], if FieldName(lines[0]) == "id" && '\0' !in value then value else id);
    }
  }

  /** A comment dispatches nothing exactly when none of its lines is a data field. */
  lemma CommentRuns(text: string, id: string)
    ensures var lines := CommentLines(text);
      && Run(Buffers([], [], id), lines + [""]).0 == Buffers([], [], LastId(lines, id))
      && (Run(Buffers([], [], id), lines + [""]).1 == [] <==> NoData(lines))
  {
    var lines, b := CommentLines(text), Buffers([], [], id);
    RunKeepsId(b, lines + [""]);
    BlankKeepsId(lines, id);
    BlankSettles(b, lines);
    if NoData(lines) {
      assert NoData(lines + [""]) by {
        assert FieldName("") == "";
      }
      NoDataDispatchesNothing(b, lines + [""]);
    } else {
      DataDispatches(b, lines);
    }
  }

  /** One frame between events leaves nothing pending but the id; an event frame dispatches its event. */
  lemma FrameRuns(frame: Frame, style: JsonText.Style, lastId: string)
    ensures Run(Buffers([], [], lastId), FrameLines(frame, style)) ==
      (Buffers([], [], IdAfter(frame, lastId)), Dispatches(frame, style, lastId))
    ensures frame.Event? ==> Dispatches(frame, style, lastId) == Expected([frame], style, lastId)
    ensures frame.Comment? ==> (Dispatches(frame, style, lastId) == [] <==> NoData(CommentLines(frame.text)))
  {
    match frame
    case Comment(text) =>
      CommentRuns(text, lastId);
    case Event(name, data, id) =>
      var json := JsonText.Dumps(data, style);
      var tail := [Field("event", name), Field("data", json), ""];
      var next := NextId(id, lastId);
      var dispatched := [Seen(name, data, style, next)];
      assert Expected([frame], style, lastId) == dispatched + Expected([], style, next) == dispatched;
      EventRuns(name, json, next);
      if Stamped(id) {
        StampRuns(id.value, lastId, tail);
      } else {
        assert FrameLines(frame, style) == tail;
      }
  }

  function StreamText(frames: seq<Frame>, style: JsonText.Style): (s: string) {
    if frames == [] then [] else FrameText(frames[0], style) + StreamText(frames[1..], style)
  }

  lemma {:induction false} StreamDecodes(frames: seq<Frame>, style: JsonText.Style)
    ensures Stream(frames, style) == Encode(StreamText(frames, style))
  {
    if frames != [] {
      StreamDecodes(frames[1..], style);
      EncodeConcat(FrameText(frames[0], style), StreamText(frames[1..], style));
    }
  }

  /** What a reader dispatches for the frames one after the other. */
  function Actual(frames: seq<Frame>, style: JsonText.Style, id: string): (r: seq<Dispatched>) {
    if frames == [] then []
    else Dispatches(frames[0], style, id) + Actual(frames[1..], style, IdAfter(frames[0], id))
  }

  lemma {:induction false} TextRuns(frames: seq<Frame>, style: JsonText.Style, lastId: string)
    requires JsonText.PrintableStyle(style) && forall i :: 0 <= i < |frames| ==> CleanName(frames[i])
    ensures Run(Buffers([], [], lastId), Lines(StreamText(frames, style), [])).1 == Actual(frames, style, lastId)
  {
    if frames != [] {
      var f, rest := frames[0], StreamText(frames[1..], style);
      FrameSplits(f, style, rest);
      FrameRuns(f, style, lastId);
      RunConcat(Buffers([], [], lastId), FrameLines(f, style), Lines(rest, []));
      TextRuns(frames[1..], style, IdAfter(f, lastId));
    }
  }

  // When what is dispatched is what is expected

  predicate Silent(frame: Frame) { frame.Comment? ==> NoData(CommentLines(frame.text)) }

  predicate AllSilent(frames: seq<Frame>) { forall i :: 0 <= i < |frames| ==> Silent(frames[i]) }

  /** At each event the id in force, which comments may have set, is the one that stamps alone would give. */
  predicate IdsAgree(frames: seq<Frame>, id: string, expected: string) {
    frames != [] ==>
      match frames[0]
      case Comment(_) => IdsAgree(frames[1..], IdAfter(frames[0], id), expected)
      case Event(_, _, stamp) =>
        NextId(stamp, id) == NextId(stamp, expected) && IdsAgree(frames[1..], NextId(stamp, id), NextId(stamp, id))
  }

  lemma AllSilentCons(frames: seq<Frame>)
    requires frames != []
    ensures AllSilent(frames) <==> Silent(frames[0]) && AllSilent(frames[1..])
  {
    assert forall i :: 0 <= i < |frames[1..]| ==> frames[1..][i] == frames[i + 1];
    if Silent(frames[0]) && AllSilent(frames[1..]) {
      forall i | 0 <= i < |frames| ensures Silent(frames[i]) {
        if i > 0 {
          assert Silent(frames[1..][i - 1]);
        }
      }
    }
  }

  /** Every event frame dispatches one event, and every comment that is not silent at least one too many. */
  lemma {:induction false} ActualLength(frames: seq<Frame>, style: JsonText.Style, id: string, expected: string)
    ensures |Actual(frames, style, id)| >= |Expected(frames, style, expected)|
    ensures |Actual(frames, style, id)| == |Expected(frames, style, expected)| ==> AllSilent(frames)
  {
    if frames != [] {
      var f := frames[0];
      AllSilentCons(frames);
      FrameRuns(f, style, id);
      assert f.Event? ==> |Expected([f], style, id)| == 1;
      ActualLength(frames[1..], style, IdAfter(f, id), if f.Event? then NextId(f.id, expected) else expected);
    }
  }

  lemma {:induction false} ActualIsExpectedIff(
    frames: seq<Frame>, style: JsonText.Style, id: string, expected: string)
    requires AllSilent(frames)
    ensures Actual(frames, style, id) == Expected(frames, style, expected) <==> IdsAgree(frames, id, expected)
  {
    if frames != [] {
      var f := frames[0];
      AllSilentCons(frames);
      FrameRuns(f, style, id);
      if f.Comment? {
        ActualIsExpectedIff(frames[1..], style, IdAfter(f, id), expected);
        var later := Actual(frames[1..], style, IdAfter(f, id));
        assert [] + later == later;
      } else {
        EventAgrees(frames, style, id, expected);
        if NextId(f.id, id) == NextId(f.id, expected) {
          ActualIsExpectedIff(frames[1..], style, NextId(f.id, id), NextId(f.id, id));
        }
      }
    }
  }

  lemma EventAgrees(frames: seq<Frame>, style: JsonText.Style, id: string, expected: string)
    requires frames != [] && frames[0].Event?
    ensures var f := frames[0];
      var next, hoped := NextId(f.id, id), NextId(f.id, expected);
      Actual(frames, style, id) == Expected(frames, style, expected) <==>
        next == hoped && Actual(frames[1..], style, next) == Expected(frames[1..], style, hoped)
  {
    var f := frames[0];
    var next, hoped := NextId(f.id, id), NextId(f.id, expected);
    EventSeen(f, style, id);
    HeadsAgree(Seen(f.name, f.data, style, next), Actual(frames[1..], style, next),
               Seen(f.name, f.data, style, hoped), Expected(frames[1..], style, hoped));
  }

  lemma EventSeen(f: Frame, style: JsonText.Style, id: string)
    requires f.Event?
    ensures Dispatches(f, style, id) == [Seen(f.name, f.data, style, NextId(f.id, id))]
  {
    FrameRuns(f, style, id);
    assert [f][1..] == [] && Expected([], style, NextId(f.id, id)) == [];
  }

  lemma HeadsAgree(x: Dispatched, xs: seq<Dispatched>, y: Dispatched, ys: seq<Dispatched>)
    ensures [x] + xs == [y] + ys <==> x == y && xs == ys
  {
    var a, b := [x] + xs, [y] + ys;
    assert a[0] == x && a[1..] == xs && b[0] == y && b[1..] == ys;
  }

  lemma NoBom(frames: seq<Frame>, style: JsonText.Style)
    ensures WithoutBom(StreamText(frames, style)) == StreamText(frames, style)
  {
  }

  lemma {:induction false} ExpectedNames(frames: seq<Frame>, style: JsonText.Style, lastId: string, i: nat)
    requires i < |frames| && !CleanName(frames[i])
    ensures exists e :: e in Expected(frames, style, lastId) && !NewlineFree(e.eventType)
  {
    var es := Expected(frames, style, lastId);
    if i == 0 {
      assert es[0].eventType == frames[0].name;
      assert es[0] in es;
    } else {
      var next := if frames[0].Event? then NextId(frames[0].id, lastId) else lastId;
      ExpectedNames(frames[1..], style, next, i - 1);
    }
  }

  /** As texts: what is dispatched is what was printed. */
  lemma StreamDispatchesIff(frames: seq<Frame>, style: JsonText.Style)
    requires JsonText.PrintableStyle(style)
    ensures Interpret(Stream(frames, style)) == Some(Expected(frames, style, "")) <==> Faithful(frames)
    ensures AllCleanNames(frames) ==> Interpret(Stream(frames, style)) == Some(Actual(frames, style, ""))
    ensures Interpret(Stream(frames, style)).Some?
    ensures forall e :: e in Interpret(Stream(frames, style)).value ==> NewlineFree(e.eventType)
  {
    var text := StreamText(frames, style);
    StreamDecodes(frames, style);
    DecodeIffEncode(Encode(text), text);
    NoBom(frames, style);
    LinesNewlineFree(text, []);
    RunTypesNewlineFree(Buffers([], [], []), Lines(text, []));
    if AllCleanNames(frames) {
      TextRuns(frames, style, "");
      ActualLength(frames, style, "", "");
      if AllSilent(frames) {
        ActualIsExpectedIff(frames, style, "", "");
      }
    } else {
      var i :| 0 <= i < |frames| && !CleanName(frames[i]);
      ExpectedNames(frames, style, "", i);
    }
  }

  predicate AllCleanNames(frames: seq<Frame>) { forall i :: 0 <= i < |frames| ==> CleanName(frames[i]) }

  /** No event name has a line break, no comment holds a data field, and none sets an id that an event then has. */
  predicate Faithful(frames: seq<Frame>) {
    AllCleanNames(frames) && AllSilent(frames) && IdsAgree(frames, "", "")
  }

  // With the JSON text of each event read as JSON

  /** An event as an application receives it; `None` is data that is not JSON. */
  datatype Received = Received(eventType: string, data: Option<Json.Json>, lastEventId: string)

  function ParsedEvent(d: Dispatched): (e: Received) {
    Received(d.eventType, JsonReader.ReadJson(d.data), d.lastEventId)
  }

  function Parsed(ds: seq<Dispatched>): (r: seq<Received>)
    ensures |r| == |ds|
    ensures forall i :: 0 <= i < |ds| ==> r[i] == ParsedEvent(ds[i])
  {
    Map(ParsedEvent, ds)
  }

  function ReadEvents(bytes: seq<Byte>): (r: Option<seq<Received>>) {
    match Interpret(bytes)
    case None => None
    case Some(ds) => Some(Parsed(ds))
  }

  /** The events themselves: each with its name, its very data, and the id in force. */
  function Events(frames: seq<Frame>, lastId: string): (r: seq<Received>) {
    if frames == [] then []
    else match frames[0]
      case Comment(_) => Events(frames[1..], lastId)
      case Event(name, data, id) =>
        var next := NextId(id, lastId);
        [Received(if name == "" then "message" else name, Some(data), next)] + Events(frames[1..], next)
  }

  ghost predicate Writable(frames: seq<Frame>, style: JsonText.Style) {
    && JsonText.PrintableStyle(style) && JsonRoundTrip.ProperStyle(style)
    && forall i :: 0 <= i < |frames| && frames[i].Event? ==> JsonRoundTrip.FloatsSpelled(frames[i].data, style)
  }

  lemma WritableTail(frames: seq<Frame>, style: JsonText.Style)
    requires frames != [] && Writable(frames, style)
    ensures Writable(frames[1..], style)
  {
    assert forall i :: 0 <= i < |frames[1..]| ==> frames[1..][i] == frames[i + 1];
  }

  lemma {:induction false} ExpectedParses(frames: seq<Frame>, style: JsonText.Style, lastId: string)
    requires Writable(frames, style)
    ensures Parsed(Expected(frames, style, lastId)) == Events(frames, lastId)
  {
    if frames != [] {
      WritableTail(frames, style);
      match frames[0]
      case Comment(_) => ExpectedParses(frames[1..], style, lastId);
      case Event(name, data, id) =>
        var next := NextId(id, lastId);
        ExpectedParses(frames[1..], style, next);
        JsonRoundTrip.DumpsReadsBack(data, style);
        MapCons(ParsedEvent, Seen(name, data, style, next), Expected(frames[1..], style, next));
    }
  }

  /** With silent comments, what is dispatched differs from what is expected in ids only. */
  lemma {:induction false} SameButIds(
    frames: seq<Frame>, style: JsonText.Style, id: string, expected: string, i: nat)
    requires AllSilent(frames) && i < |Expected(frames, style, expected)|
    ensures i < |Actual(frames, style, id)|
    ensures Actual(frames, style, id)[i].data == Expected(frames, style, expected)[i].data
  {
    var f := frames[0];
    AllSilentCons(frames);
    FrameRuns(f, style, id);
    if f.Comment? {
      SameButIds(frames[1..], style, IdAfter(f, id), expected, i);
    } else {
      EventSeen(f, style, id);
      if i > 0 {
        SameButIds(frames[1..], style, NextId(f.id, id), NextId(f.id, expected), i - 1);
      }
    }
  }

  lemma ParsedAlike(frames: seq<Frame>, style: JsonText.Style)
    requires Writable(frames, style) && AllCleanNames(frames)
    requires Parsed(Actual(frames, style, "")) == Events(frames, "")
    ensures Actual(frames, style, "") == Expected(frames, style, "")
  {
    var ds, es := Actual(frames, style, ""), Expected(frames, style, "");
    ExpectedParses(frames, style, "");
    ActualLength(frames, style, "", "");
    assert |ds| == |Parsed(ds)| == |Parsed(es)| == |es|;
    forall i | 0 <= i < |ds| ensures ds[i] == es[i] {
      SameButIds(frames, style, "", "", i);
      assert Parsed(ds)[i] == Parsed(es)[i];
    }
  }

  lemma {:induction false} EventsNames(frames: seq<Frame>, lastId: string, i: nat)
    requires i < |frames| && !CleanName(frames[i])
    ensures exists e :: e in Events(frames, lastId) && !NewlineFree(e.eventType)
  {
    var es := Events(frames, lastId);
    if i == 0 {
      assert es[0].eventType == frames[0].name;
      assert es[0] in es;
    } else {
      var next := if frames[0].Event? then NextId(frames[0].id, lastId) else lastId;
      EventsNames(frames[1..], next, i - 1);
    }
  }

  /**
   * Any run of frames reads back as exactly its events, in order, each with its data and the id in force, if and
   * only if no event name has a line break, no further line of a comment is a data field, and no id field in a
   * comment is in force at an event.
   */
  lemma StreamReadsBackIff(frames: seq<Frame>, style: JsonText.Style)
    requires Writable(frames, style)
    ensures ReadEvents(Stream(frames, style)) == Some(Events(frames, "")) <==>
      && (forall i :: 0 <= i < |frames| ==> CleanName(frames[i]))
      && AllSilent(frames) && IdsAgree(frames, "", "")
  {
    StreamDispatchesIff(frames, style);
    ExpectedParses(frames, style, "");
    if ReadEvents(Stream(frames, style)) == Some(Events(frames, "")) {
      var ds := Interpret(Stream(frames, style)).value;
      if AllCleanNames(frames) {
        ParsedAlike(frames, style);
      } else {
        var i :| 0 <= i < |frames| && !CleanName(frames[i]);
        EventsNames(frames, "", i);
      }
    }
  }

  /** One event frame, read between events, is received as its event. */
  lemma FrameDelivers(name: string, data: Json.Json, id: Option<string>, style: JsonText.Style, lastId: string)
    requires JsonRoundTrip.ProperStyle(style) && JsonRoundTrip.FloatsSpelled(data, style)
    ensures Parsed(Dispatches(Event(name, data, id), style, lastId)) ==
      [Received(if name == "" then "message" else name, Some(data), NextId(id, lastId))]
  {
    EventSeen(Event(name, data, id), style, lastId);
    JsonRoundTrip.DumpsReadsBack(data, style);
  }

  lemma OneCommentLine(text: string, id: string)
    requires FieldName(": " + text) == ""
    ensures LastId([": " + text], id) == id && NoData([": " + text])
  {
    assert [": " + text][1..] == [];
  }

  lemma {:induction false} CleanCommentsAgree(frames: seq<Frame>, id: string)
    requires forall i :: 0 <= i < |frames| ==> CleanComment(frames[i])
    ensures AllSilent(frames) && IdsAgree(frames, id, id)
  {
    if frames != [] {
      assert CleanComment(frames[0]);
      assert forall i :: 0 <= i < |frames[1..]| ==> frames[1..][i] == frames[i + 1];
      AllSilentCons(frames);
      if frames[0].Comment? {
        CleanCommentLines(frames[0].text);
        OneCommentLine(frames[0].text, id);
      }
      CleanCommentsAgree(frames[1..], IdAfter(frames[0], id));
    }
  }

  /** With one-line comments, such as the heartbeat, it comes down to the event names. */
  lemma StreamReadsBack(frames: seq<Frame>, style: JsonText.Style)
    requires Writable(frames, style)
    requires forall i :: 0 <= i < |frames| ==> CleanComment(frames[i])
    ensures ReadEvents(Stream(frames, style)) == Some(Events(frames, "")) <==>
      forall i :: 0 <= i < |frames| ==> CleanName(frames[i])
  {
    StreamReadsBackIff(frames, style);
    CleanCommentsAgree(frames, "");
  }
}
