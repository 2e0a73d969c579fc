/** The panel wire: snapshots, deltas, and the receiver rule stated in the `PanelDelta` contract text. */
module Panel {
  import opened Wrappers
  import opened Lists

  datatype Value = Flag(b: bool) | Number(x: real) | Word(s: string)

  type State = map<string, Value>

  datatype Area = Area(id: string, name: string)
  datatype Scene = Scene(id: string, name: string)
  datatype Device = Device(
    id: string, name: string, kind: string, areaId: Option<string>, online: bool, state: Option<State>)

  datatype Snapshot = Snapshot(
    revision: nat, seqNo: nat, homeName: string, panelAreaId: Option<string>, utcOffset: int,
    areas: seq<Area>, devices: seq<Device>, scenes: seq<Scene>)

  datatype Change = Change(deviceId: string, online: bool, state: State)
  datatype Delta = Delta(revision: nat, seqNo: nat, changes: seq<Change>)
  datatype Sync = Sync(knownRevision: Option<nat>, knownSeq: Option<nat>)
  datatype Message = Full(snapshot: Snapshot) | Update(delta: Delta)

  function DeviceIds(ds: seq<Device>): (r: seq<string>) { seq(|ds|, i requires 0 <= i < |ds| => ds[i].id) }
  function AreaIds(xs: seq<Area>): (r: seq<string>) { seq(|xs|, i requires 0 <= i < |xs| => xs[i].id) }
  function SceneIds(xs: seq<Scene>): (r: seq<string>) { seq(|xs|, i requires 0 <= i < |xs| => xs[i].id) }
  function ChangeIds(cs: seq<Change>): (r: seq<string>) { seq(|cs|, i requires 0 <= i < |cs| => cs[i].deviceId) }

  /** The snapshot validator, its size limit aside. */
  predicate ValidSnapshot(s: Snapshot) {
    && Unique(AreaIds(s.areas)) && Unique(DeviceIds(s.devices)) && Unique(SceneIds(s.scenes))
    && (s.panelAreaId.Some? ==> s.panelAreaId.value in AreaIds(s.areas))
    && (forall d :: d in s.devices && d.areaId.Some? ==> d.areaId.value in AreaIds(s.areas))
    && (forall d :: d in s.devices && d.state.None? ==> !d.online)
  }

  predicate ValidDelta(d: Delta) {
    d.seqNo >= 1 && d.changes != [] && Unique(ChangeIds(d.changes))
  }

  lemma AllUniqueIff(s: Snapshot)
    ensures Unique(AreaIds(s.areas)) <==> forall i, j :: 0 <= i < j < |s.areas| ==> s.areas[i].id != s.areas[j].id
    ensures Unique(DeviceIds(s.devices)) <==>
      forall i, j :: 0 <= i < j < |s.devices| ==> s.devices[i].id != s.devices[j].id
    ensures Unique(SceneIds(s.scenes)) <==> forall i, j :: 0 <= i < j < |s.scenes| ==> s.scenes[i].id != s.scenes[j].id
  {
    UniqueIffDistinct(AreaIds(s.areas));
    UniqueIffDistinct(DeviceIds(s.devices));
    UniqueIffDistinct(SceneIds(s.scenes));
    assert forall i :: 0 <= i < |s.areas| ==> AreaIds(s.areas)[i] == s.areas[i].id;
    assert forall i :: 0 <= i < |s.devices| ==> DeviceIds(s.devices)[i] == s.devices[i].id;
    assert forall i :: 0 <= i < |s.scenes| ==> SceneIds(s.scenes)[i] == s.scenes[i].id;
  }

  predicate KnownArea(s: Snapshot, id: Option<string>) {
    id.Some? ==> exists k :: 0 <= k < |s.areas| && s.areas[k].id == id.value
  }

  lemma KnownAreaIff(s: Snapshot, id: Option<string>)
    ensures KnownArea(s, id) <==> (id.Some? ==> id.value in AreaIds(s.areas))
  {
    if id.Some? {
      if k :| 0 <= k < |s.areas| && s.areas[k].id == id.value {
        assert AreaIds(s.areas)[k] == id.value;
      }
      if id.value in AreaIds(s.areas) {
        var k :| 0 <= k < |s.areas| && AreaIds(s.areas)[k] == id.value;
        assert s.areas[k].id == id.value;
      }
    }
  }

  /**
   * A valid snapshot names each area, device and scene once, refers to areas it lists, and has a state for every
   * device that is online.
   */
  lemma ValidSnapshotIff(s: Snapshot)
    ensures ValidSnapshot(s) <==>
      && (forall i, j :: 0 <= i < j < |s.areas| ==> s.areas[i].id != s.areas[j].id)
      && (forall i, j :: 0 <= i < j < |s.devices| ==> s.devices[i].id != s.devices[j].id)
      && (forall i, j :: 0 <= i < j < |s.scenes| ==> s.scenes[i].id != s.scenes[j].id)
      && KnownArea(s, s.panelAreaId)
      && forall d :: d in s.devices ==> KnownArea(s, d.areaId) && (d.state.Some? || !d.online)
  {
    AllUniqueIff(s);
    KnownAreaIff(s, s.panelAreaId);
    forall d | d in s.devices
      ensures KnownArea(s, d.areaId) <==> (d.areaId.Some? ==> d.areaId.value in AreaIds(s.areas))
    {
      KnownAreaIff(s, d.areaId);
    }
  }

  // The receiver

  function ApplyChange(ds: seq<Device>, c: Change): (r: seq<Device>)
    ensures |r| == |ds|
  {
    seq(|ds|, i requires 0 <= i < |ds| =>
      if ds[i].id == c.deviceId then ds[i].(online := c.online, state := Some(c.state)) else ds[i])
  }

  function ApplyChanges(ds: seq<Device>, cs: seq<Change>): (r: seq<Device>)
    ensures |r| == |ds|
    decreases |cs|
  {
    if cs == [] then ds else ApplyChanges(ApplyChange(ds, cs[0]), cs[1..])
  }

  /** What a panel shows and asks for after a message: the stated rule. */
  function PanelStep(shown: Option<Snapshot>, m: Message): (r: (Option<Snapshot>, Option<Sync>)) {
    match m
    case Full(s) => (Some(s), None)
    case Update(d) =>
      if shown.None? then (None, Some(Sync(None, None)))
      else
        var s := shown.value;
        var ask := Some(Sync(Some(s.revision), Some(s.seqNo)));
        if d.revision != s.revision then (shown, ask)
        else if d.seqNo == s.seqNo + 1 then
          (Some(s.(seqNo := d.seqNo, devices := ApplyChanges(s.devices, d.changes))), None)
        else if d.seqNo <= s.seqNo then (shown, None)
        else (shown, ask)
  }

  /** The panel asks for a sync, naming what it holds, exactly on a revision mismatch, a gap, or nothing to show. */
  lemma AsksIff(shown: Option<Snapshot>, m: Message)
    ensures PanelStep(shown, m).1 ==
      if m.Full? then None
      else if shown.None? then Some(Sync(None, None))
      else if m.delta.revision == shown.value.revision && m.delta.seqNo <= shown.value.seqNo + 1 then None
      else Some(Sync(Some(shown.value.revision), Some(shown.value.seqNo)))
  {
  }

  /** A panel's cache. */
  class PanelCache {
    var shown: Option<Snapshot>

    constructor ()
      ensures shown == None
    {
      shown := None;
    }

    method Receive(m: Message) returns (ask: Option<Sync>)
      modifies this
      ensures (shown, ask) == PanelStep(old(shown), m)
    {
      ask := None;
      match m {
        case Full(s) => shown := Some(s);
        case Update(d) =>
          if shown.None? { return Some(Sync(None, None)); }
          var s := shown.value;
          if d.revision != s.revision || d.seqNo > s.seqNo + 1 {
            return Some(Sync(Some(s.revision), Some(s.seqNo)));
          }
          if d.seqNo == s.seqNo + 1 {
            var devices, k := s.devices, 0;
            while k < |d.changes|
              invariant k <= |d.changes|
              invariant ApplyChanges(devices, d.changes[k..]) == ApplyChanges(s.devices, d.changes)
            {
              assert d.changes[k..][1..] == d.changes[k + 1..];
              devices := ApplyChange(devices, d.changes[k]);
              k := k + 1;
            }
            shown := Some(s.(seqNo := d.seqNo, devices := devices));
          }
      }
    }
  }

  function Receive(shown: Option<Snapshot>, ms: seq<Message>): (r: Option<Snapshot>)
    decreases |ms|
  {
    if ms == [] then shown else Receive(PanelStep(shown, ms[0]).0, ms[1..])
  }

  lemma {:induction false} ReceiveConcat(shown: Option<Snapshot>, xs: seq<Message>, ys: seq<Message>)
    ensures Receive(shown, xs + ys) == Receive(Receive(shown, xs), ys)
    decreases |xs|
  {
    if xs == [] {
      assert xs + ys == ys;
    } else {
      assert (xs + ys)[1..] == xs[1..] + ys;
      ReceiveConcat(PanelStep(shown, xs[0]).0, xs[1..], ys);
    }
  }

  // Full state per change

  predicate Touches(cs: seq<Change>, id: string) { id in ChangeIds(cs) }

  /** The device after the changes: what its own change says, if there is one. */
  predicate ReadsAs(d: Device, cs: seq<Change>, r: Device) {
    && (Touches(cs, d.id) ==>
          exists c :: c in cs && c.deviceId == d.id && r == d.(online := c.online, state := Some(c.state)))
    && (!Touches(cs, d.id) ==> r == d)
  }

  lemma TouchesIff(cs: seq<Change>, id: string)
    ensures Touches(cs, id) <==> exists c :: c in cs && c.deviceId == id
  {
    if Touches(cs, id) {
      var i :| 0 <= i < |cs| && ChangeIds(cs)[i] == id;
      assert cs[i] in cs;
    }
    if exists c :: c in cs && c.deviceId == id {
      var c :| c in cs && c.deviceId == id;
      var i :| 0 <= i < |cs| && cs[i] == c;
      assert ChangeIds(cs)[i] == id;
    }
  }

  lemma {:induction false} ApplyChangesAt(ds: seq<Device>, cs: seq<Change>, i: nat)
    requires i < |ds| && Unique(ChangeIds(cs))
    ensures ReadsAs(ds[i], cs, ApplyChanges(ds, cs)[i])
    decreases |cs|
  {
    if cs != [] {
      var rest, ids := cs[1..], ChangeIds(cs);
      UniqueIffDistinct(ids);
      UniqueIffDistinct(ChangeIds(rest));
      assert forall k :: 0 <= k < |rest| ==> ChangeIds(rest)[k] == ids[k + 1];
      ApplyChangesAt(ApplyChange(ds, cs[0]), rest, i);
      assert ids[0] == cs[0].deviceId;
      TouchesIff(cs, ds[i].id);
      TouchesIff(rest, ds[i].id);
      assert cs == [cs[0]] + rest;
      assert Touches(cs, ds[i].id) <==> ds[i].id == cs[0].deviceId || Touches(rest, ds[i].id);
    }
  }

  lemma SameChange(cs: seq<Change>, a: Change, b: Change)
    requires Unique(ChangeIds(cs)) && a in cs && b in cs && a.deviceId == b.deviceId
    ensures a == b
  {
    UniqueIffDistinct(ChangeIds(cs));
    var i :| 0 <= i < |cs| && cs[i] == a;
    var j :| 0 <= j < |cs| && cs[j] == b;
    assert ChangeIds(cs)[i] == ChangeIds(cs)[j];
  }

  lemma ReadsAsUnique(d: Device, cs: seq<Change>, r: Device, t: Device)
    requires Unique(ChangeIds(cs)) && ReadsAs(d, cs, r) && ReadsAs(d, cs, t)
    ensures r == t
  {
    if Touches(cs, d.id) {
      var a :| a in cs && a.deviceId == d.id && r == d.(online := a.online, state := Some(a.state));
      var b :| b in cs && b.deviceId == d.id && t == d.(online := b.online, state := Some(b.state));
      SameChange(cs, a, b);
    }
  }

  /** Applying a delta twice is applying it once, and the order of its changes does not matter. */
  lemma ChangesIdempotentAndUnordered(ds: seq<Device>, cs: seq<Change>, shuffled: seq<Change>)
    requires Unique(ChangeIds(cs)) && multiset(cs) == multiset(shuffled)
    ensures ApplyChanges(ApplyChanges(ds, cs), cs) == ApplyChanges(ds, cs)
    ensures ApplyChanges(ds, shuffled) == ApplyChanges(ds, cs)
  {
    SameIds(cs, shuffled);
    forall i | 0 <= i < |ds|
      ensures ApplyChanges(ApplyChanges(ds, cs), cs)[i] == ApplyChanges(ds, cs)[i] == ApplyChanges(ds, shuffled)[i]
    {
      var once := ApplyChanges(ds, cs);
      ApplyChangesAt(ds, cs, i);
      ApplyChangesAt(once, cs, i);
      ApplyChangesAt(ds, shuffled, i);
      assert ReadsAs(ds[i], cs, ApplyChanges(ds, shuffled)[i]);
      ReadsAsUnique(ds[i], cs, once[i], ApplyChanges(ds, shuffled)[i]);
      assert ReadsAs(ds[i], cs, ApplyChanges(once, cs)[i]);
      ReadsAsUnique(ds[i], cs, once[i], ApplyChanges(once, cs)[i]);
    }
  }

  lemma SameIds(cs: seq<Change>, shuffled: seq<Change>)
    requires Unique(ChangeIds(cs)) && multiset(cs) == multiset(shuffled)
    ensures forall c :: c in cs <==> c in shuffled
    ensures forall id :: Touches(cs, id) <==> Touches(shuffled, id)
    ensures Unique(ChangeIds(shuffled))
  {
    forall c ensures c in cs <==> c in shuffled {
      assert c in cs <==> c in multiset(cs);
      assert c in shuffled <==> c in multiset(shuffled);
    }
    forall id ensures Touches(cs, id) <==> Touches(shuffled, id) {
      TouchesIff(cs, id);
      TouchesIff(shuffled, id);
    }
    assert (set id | id in ChangeIds(cs)) == (set id | id in ChangeIds(shuffled)) by {
      forall id ensures id in ChangeIds(cs) <==> id in ChangeIds(shuffled) {
        assert Touches(cs, id) <==> Touches(shuffled, id);
      }
    }
    assert |multiset(cs)| == |cs| && |multiset(shuffled)| == |shuffled|;
  }
}

/** A host's history, a channel that loses, repeats and reorders, and what the panel ends up showing. */
module PanelReplication {
  import opened Wrappers
  import opened Lists
  import opened Panel

  /** The states a host went through, and for each step the delta it published, or none for a registry change. */
  datatype History = History(states: seq<Snapshot>, deltas: seq<Option<Delta>>)

  /** A registry change always comes with a new, larger revision. */
  predicate RegistryStep(a: Snapshot, b: Snapshot) { a.revision < b.revision }

  /**
   * A state change under one revision: the published changes carry the full state, after the change, of every
   * device that differs. Nothing else about the home moves.
   */
  ghost predicate ChangeStep(a: Snapshot, b: Snapshot, d: Delta) {
    && ValidDelta(d)
    && d.revision == b.revision && d.seqNo == b.seqNo == a.seqNo + 1
    && b == a.(seqNo := b.seqNo, devices := b.devices)
    && |b.devices| == |a.devices|
    && (forall i :: 0 <= i < |a.devices| ==>
          && b.devices[i] == a.devices[i].(online := b.devices[i].online, state := b.devices[i].state)
          && (b.devices[i] != a.devices[i] ==> Touches(d.changes, a.devices[i].id)))
    && (forall c, i :: c in d.changes && 0 <= i < |b.devices| && b.devices[i].id == c.deviceId ==>
          b.devices[i].online == c.online && b.devices[i].state == Some(c.state))
  }

  ghost predicate HostStep(a: Snapshot, b: Snapshot, d: Option<Delta>) {
    match d
    case None => RegistryStep(a, b)
    case Some(delta) => ChangeStep(a, b, delta)
  }

  ghost predicate ValidHistory(h: History) {
    && h.states != [] && |h.deltas| == |h.states| - 1
    && (forall i :: 0 <= i < |h.states| ==> ValidSnapshot(h.states[i]))
    && forall i :: 0 <= i < |h.deltas| ==> HostStep(h.states[i], h.states[i + 1], h.deltas[i])
  }

  /** Anything the host ever published: the snapshot of any of its states, the delta of any of its steps. */
  predicate Published(h: History, m: Message) {
    match m
    case Full(s) => s in h.states
    case Update(d) => Some(d) in h.deltas
  }

  predicate Precedes(a: Snapshot, b: Snapshot) {
    a.revision < b.revision || (a.revision == b.revision && a.seqNo < b.seqNo)
  }

  /** (revision, seq) climbs lexicographically, so it names one state of the history. */
  lemma {:induction false} HistoryClimbs(h: History, i: nat, j: nat)
    requires ValidHistory(h) && i < j < |h.states|
    ensures Precedes(h.states[i], h.states[j])
    decreases j
  {
    assert HostStep(h.states[j - 1], h.states[j], h.deltas[j - 1]);
    if i < j - 1 {
      HistoryClimbs(h, i, j - 1);
    }
  }

  /** The states differ as a state change may make them differ, and in some device. */
  predicate OnlyStatesDiffer(a: Snapshot, b: Snapshot) {
    && b == a.(seqNo := a.seqNo + 1, devices := b.devices)
    && |b.devices| == |a.devices| && a.devices != b.devices
    && forall i :: 0 <= i < |a.devices| ==>
         b.devices[i] == a.devices[i].(online := b.devices[i].online, state := b.devices[i].state)
  }

  /** The full state, in `b`, of every device of the first `n` that differs. */
  function Changes(a: Snapshot, b: Snapshot, n: nat): (cs: seq<Change>)
    requires n <= |a.devices| == |b.devices|
  {
    if n == 0 then []
    else
      var d := b.devices[n - 1];
      Changes(a, b, n - 1)
      + if d == a.devices[n - 1] || d.state.None? then [] else [Change(d.id, d.online, d.state.value)]
  }

  /** Which devices the changes speak of, and that none is spoken of twice. */
  lemma {:induction false} ChangesSpeak(a: Snapshot, b: Snapshot, n: nat)
    requires n <= |a.devices| && OnlyStatesDiffer(a, b) && Distinct(DeviceIds(b.devices))
    ensures Distinct(ChangeIds(Changes(a, b, n)))
    ensures forall c :: c in Changes(a, b, n) <==> exists i :: 0 <= i < n && Speaks(a, b, i, c)
  {
    if n > 0 {
      var before, d := Changes(a, b, n - 1), b.devices[n - 1];
      ChangesSpeak(a, b, n - 1);
      if d != a.devices[n - 1] && d.state.Some? {
        var c := Change(d.id, d.online, d.state.value);
        assert Speaks(a, b, n - 1, c);
        assert Changes(a, b, n) == before + [c];
        forall k | 0 <= k < |before| ensures before[k].deviceId != d.id {
          assert before[k] in before;
          var i :| 0 <= i < n - 1 && Speaks(a, b, i, before[k]);
          assert DeviceIds(b.devices)[i] != DeviceIds(b.devices)[n - 1];
        }
        var ids := ChangeIds(before + [c]);
        assert forall k :: 0 <= k < |before| ==> ids[k] == before[k].deviceId == ChangeIds(before)[k];
        assert ids[|before|] == d.id;
      } else {
        assert Changes(a, b, n) == before;
        var last := n - 1;
        assert forall c :: !Speaks(a, b, last, c);
      }
    }
  }

  predicate Speaks(a: Snapshot, b: Snapshot, i: nat, c: Change)
    requires i < |a.devices| == |b.devices|
  {
    var d := b.devices[i];
    d != a.devices[i] && d.state == Some(c.state) && c.deviceId == d.id && c.online == d.online
  }

  /** Every state change a host can make can be published: there is a valid delta that says exactly it. */
  lemma StateChangePublishable(a: Snapshot, b: Snapshot) returns (d: Delta)
    requires ValidSnapshot(a) && ValidSnapshot(b) && OnlyStatesDiffer(a, b)
    requires forall i :: 0 <= i < |a.devices| && a.devices[i] != b.devices[i] ==> b.devices[i].state.Some?
    ensures ChangeStep(a, b, d)
  {
    var n := |a.devices|;
    d := Delta(b.revision, b.seqNo, Changes(a, b, n));
    UniqueIffDistinct(DeviceIds(b.devices));
    ChangesSpeak(a, b, n);
    UniqueIffDistinct(ChangeIds(d.changes));
    forall i | 0 <= i < n && a.devices[i] != b.devices[i] ensures Touches(d.changes, a.devices[i].id) {
      ChangeTouches(a, b, i);
    }
    var k :| 0 <= k < n && a.devices[k] != b.devices[k];
    assert Touches(d.changes, a.devices[k].id);
    forall c, i | c in d.changes && 0 <= i < n && b.devices[i].id == c.deviceId
      ensures b.devices[i].online == c.online && b.devices[i].state == Some(c.state)
    {
      ChangeSays(a, b, i, c);
    }
  }

  lemma ChangeTouches(a: Snapshot, b: Snapshot, i: nat)
    requires OnlyStatesDiffer(a, b) && Distinct(DeviceIds(b.devices))
    requires i < |a.devices| && a.devices[i] != b.devices[i] && b.devices[i].state.Some?
    ensures Touches(Changes(a, b, |a.devices|), a.devices[i].id)
  {
    var cs, d := Changes(a, b, |a.devices|), b.devices[i];
    ChangesSpeak(a, b, |a.devices|);
    assert Speaks(a, b, i, Change(d.id, d.online, d.state.value));
    TouchesIff(cs, a.devices[i].id);
  }

  lemma ChangeSays(a: Snapshot, b: Snapshot, i: nat, c: Change)
    requires OnlyStatesDiffer(a, b) && Distinct(DeviceIds(b.devices))
    requires i < |a.devices| && c in Changes(a, b, |a.devices|) && b.devices[i].id == c.deviceId
    ensures b.devices[i].online == c.online && b.devices[i].state == Some(c.state)
  {
    ChangesSpeak(a, b, |a.devices|);
    var j :| 0 <= j < |a.devices| && Speaks(a, b, j, c);
    assert DeviceIds(b.devices)[i] == DeviceIds(b.devices)[j];
  }

  /** The panel's step on the host's delta is the host's own step. */
  lemma DeltaReproducesStep(a: Snapshot, b: Snapshot, d: Delta)
    requires ChangeStep(a, b, d)
    ensures PanelStep(Some(a), Update(d)) == (Some(b), None)
  {
    forall i | 0 <= i < |a.devices| ensures ApplyChanges(a.devices, d.changes)[i] == b.devices[i] {
      var id := a.devices[i].id;
      ApplyChangesAt(a.devices, d.changes, i);
      if Touches(d.changes, id) {
        TouchesIff(d.changes, id);
        var c :| c in d.changes && c.deviceId == id;
        assert b.devices[i].id == id;
        assert ReadsAs(a.devices[i], d.changes, b.devices[i]);
        ReadsAsUnique(a.devices[i], d.changes, ApplyChanges(a.devices, d.changes)[i], b.devices[i]);
      }
    }
    assert ApplyChanges(a.devices, d.changes) == b.devices;
  }

  /** One message, whenever it arrives, moves a panel from one state of the history to another, or not at all. */
  lemma StepStaysInHistory(h: History, shown: Option<Snapshot>, m: Message)
    requires ValidHistory(h) && Published(h, m)
    requires shown.Some? ==> shown.value in h.states
    ensures var next := PanelStep(shown, m).0; next.Some? ==> next.value in h.states
  {
    if m.Update? && shown.Some? && m.delta.revision == shown.value.revision && m.delta.seqNo == shown.value.seqNo + 1 {
      var i :| 0 <= i < |h.states| && h.states[i] == shown.value;
      var j :| 0 <= j < |h.deltas| && h.deltas[j] == Some(m.delta);
      assert HostStep(h.states[j], h.states[j + 1], h.deltas[j]);
      if i < j {
        HistoryClimbs(h, i, j);
      } else if j < i {
        HistoryClimbs(h, j, i);
      }
      DeltaReproducesStep(h.states[j], h.states[j + 1], m.delta);
    }
  }

  /** `s` is in the history, and no other state there has its (revision, seq). */
  predicate OnlyStateAt(h: History, s: Snapshot) {
    s in h.states && forall t :: t in h.states && t.revision == s.revision && t.seqNo == s.seqNo ==> t == s
  }

  /**
   * Under any loss, duplication and reordering, a panel shows nothing yet or exactly the one host state that
   * has its (revision, seq), never a mixture.
   */
  lemma {:induction false} PanelShowsHostState(h: History, ms: seq<Message>)
    requires ValidHistory(h) && forall m :: m in ms ==> Published(h, m)
    ensures var shown := Receive(None, ms);
      shown.Some? ==> OnlyStateAt(h, shown.value)
    decreases |ms|
  {
    if ms != [] {
      var n := |ms| - 1;
      assert ms == ms[..n] + [ms[n]];
      assert [ms[n]][1..] == [];
      PanelShowsHostState(h, ms[..n]);
      ReceiveConcat(None, ms[..n], [ms[n]]);
      StepStaysInHistory(h, Receive(None, ms[..n]), ms[n]);
      forall s, t | s in h.states && t in h.states && s.revision == t.revision && s.seqNo == t.seqNo ensures s == t {
        NamesOneState(h, s, t);
      }
    }
  }

  lemma NamesOneState(h: History, s: Snapshot, t: Snapshot)
    requires ValidHistory(h) && s in h.states && t in h.states && s.revision == t.revision && s.seqNo == t.seqNo
    ensures s == t
  {
    var i :| 0 <= i < |h.states| && h.states[i] == s;
    var j :| 0 <= j < |h.states| && h.states[j] == t;
    if i < j {
      HistoryClimbs(h, i, j);
    } else if j < i {
      HistoryClimbs(h, j, i);
    }
  }

  /** Deltas alone keep the revision and never move seq backward, whoever sent them. */
  lemma {:induction false} DeltasNeverGoBack(s: Snapshot, ms: seq<Message>)
    requires forall m :: m in ms ==> m.Update?
    ensures var r := Receive(Some(s), ms);
      r.Some? && r.value.revision == s.revision && r.value.seqNo >= s.seqNo
    decreases |ms|
  {
    if ms != [] {
      assert ms[0] in ms;
      assert forall m :: m in ms[1..] ==> m in ms;
      DeltasNeverGoBack(PanelStep(Some(s), ms[0]).0.value, ms[1..]);
    }
  }

  /** A message moves a panel back exactly when it is a snapshot older than what is shown. */
  lemma StepGoesBackIff(s: Snapshot, m: Message)
    ensures PanelStep(Some(s), m).0.Some?
    ensures Precedes(PanelStep(Some(s), m).0.value, s) <==> m.Full? && Precedes(m.snapshot, s)
  {
  }

  /** What is shown after each message, from before the first to after the last. */
  function Displays(shown: Option<Snapshot>, ms: seq<Message>): (r: seq<Option<Snapshot>>)
    ensures |r| == |ms| + 1 && r[0] == shown
    decreases |ms|
  {
    [shown] + if ms == [] then [] else Displays(PanelStep(shown, ms[0]).0, ms[1..])
  }

  lemma {:induction false} DisplaysAreRuns(shown: Option<Snapshot>, ms: seq<Message>, i: nat)
    requires i <= |ms|
    ensures Displays(shown, ms)[i] == Receive(shown, ms[..i])
    decreases |ms|
  {
    if i > 0 {
      DisplaysAreRuns(PanelStep(shown, ms[0]).0, ms[1..], i - 1);
      assert ms[..i][1..] == ms[1..][..i - 1];
    }
  }

  predicate NotBehind(before: Option<Snapshot>, after: Option<Snapshot>) {
    before.Some? ==> after.Some? && !Precedes(after.value, before.value)
  }

  /** At every two moments of the run, the later display is not behind the earlier one. */
  predicate NeverBack(displays: seq<Option<Snapshot>>) {
    forall i, j :: 0 <= i < j < |displays| ==> NotBehind(displays[i], displays[j])
  }

  /** No snapshot is delivered to a panel that shows a newer state. */
  predicate NoneLate(shown: Option<Snapshot>, ms: seq<Message>)
    decreases |ms|
  {
    ms == [] || (
      && (shown.Some? && ms[0].Full? ==> !Precedes(ms[0].snapshot, shown.value))
      && NoneLate(PanelStep(shown, ms[0]).0, ms[1..]))
  }

  lemma NeverBackCons(shown: Option<Snapshot>, next: Option<Snapshot>, rest: seq<Option<Snapshot>>)
    requires rest != [] && rest[0] == next
    ensures NeverBack([shown] + rest) <==> NotBehind(shown, next) && NeverBack(rest)
  {
    var all := [shown] + rest;
    assert forall i :: 0 <= i < |rest| ==> rest[i] == all[i + 1];
    if NeverBack(all) {
      assert NotBehind(all[0], all[1]);
      forall i, j | 0 <= i < j < |rest| ensures NotBehind(rest[i], rest[j]) {
        assert NotBehind(all[i + 1], all[j + 1]);
      }
    }
    if NotBehind(shown, next) && NeverBack(rest) {
      forall i, j | 0 <= i < j < |all| ensures NotBehind(all[i], all[j]) {
        if i > 0 {
          assert NotBehind(rest[i - 1], rest[j - 1]);
        } else if j > 1 {
          assert NotBehind(rest[0], rest[j - 1]);
        }
      }
    }
  }

  lemma NotBehindIff(shown: Option<Snapshot>, m: Message)
    ensures NotBehind(shown, PanelStep(shown, m).0) <==>
      (shown.Some? && m.Full? ==> !Precedes(m.snapshot, shown.value))
  {
    if shown.Some? {
      StepGoesBackIff(shown.value, m);
    }
  }

  /** Over a whole run the panel never goes back exactly when no snapshot came late. */
  lemma {:induction false} RunNeverGoesBackIff(shown: Option<Snapshot>, ms: seq<Message>)
    ensures NeverBack(Displays(shown, ms)) <==> NoneLate(shown, ms)
    decreases |ms|
  {
    if ms != [] {
      var next := PanelStep(shown, ms[0]).0;
      RunNeverGoesBackIff(next, ms[1..]);
      NeverBackCons(shown, next, Displays(next, ms[1..]));
      NotBehindIff(shown, ms[0]);
    }
  }

  ghost predicate AllPublished(h: History, ms: seq<Message>) { forall m :: m in ms ==> Published(h, m) }

  ghost predicate GoesBack(h: History, ms: seq<Message>) { AllPublished(h, ms) && !NeverBack(Displays(None, ms)) }

  /** Some deliveries of what a host published move a panel back, exactly when the host ever changed state. */
  lemma CanGoBackIff(h: History)
    requires ValidHistory(h)
    ensures (exists ms :: GoesBack(h, ms)) <==> |h.states| > 1
  {
    if |h.states| > 1 {
      var early, late := h.states[0], h.states[1];
      var ms := [Full(late), Full(early)];
      HistoryClimbs(h, 0, 1);
      assert ms[1..] == [Full(early)];
      assert !NoneLate(Some(late), ms[1..]);
      RunNeverGoesBackIff(None, ms);
      assert GoesBack(h, ms);
    }
    if ms :| GoesBack(h, ms) {
      RunNeverGoesBackIff(None, ms);
      if |h.states| == 1 {
        OneStateNeverLate(h, None, ms);
      }
    }
  }

  lemma {:induction false} OneStateNeverLate(h: History, shown: Option<Snapshot>, ms: seq<Message>)
    requires ValidHistory(h) && |h.states| == 1 && AllPublished(h, ms)
    requires shown.Some? ==> shown.value == h.states[0]
    ensures NoneLate(shown, ms)
    decreases |ms|
  {
    if ms != [] {
      assert Published(h, ms[0]);
      assert forall m :: m in ms[1..] ==> m in ms;
      OneStateNeverLate(h, PanelStep(shown, ms[0]).0, ms[1..]);
    }
  }

  function Last(h: History): (r: Snapshot)
    requires h.states != []
  {
    h.states[|h.states| - 1]
  }

  /** A delta of the history is at or behind the host's last state. */
  lemma DeltaNotAhead(h: History, d: Delta)
    requires ValidHistory(h) && Some(d) in h.deltas && d.revision == Last(h).revision
    ensures d.seqNo <= Last(h).seqNo
  {
    var j :| 0 <= j < |h.deltas| && h.deltas[j] == Some(d);
    DeltaArrivesAt(h, j);
    NotPastLast(h, j + 1);
  }

  lemma NotPastLast(h: History, i: nat)
    requires ValidHistory(h) && i < |h.states| && h.states[i].revision == Last(h).revision
    ensures h.states[i].seqNo <= Last(h).seqNo
  {
    if i < |h.states| - 1 {
      StateBehind(h, i, |h.states| - 1);
    }
  }

  lemma DeltaArrivesAt(h: History, j: nat)
    requires ValidHistory(h) && j < |h.deltas| && h.deltas[j].Some?
    ensures var d := h.deltas[j].value;
      h.states[j + 1].revision == d.revision && h.states[j + 1].seqNo == d.seqNo
  {
    assert HostStep(h.states[j], h.states[j + 1], h.deltas[j]);
  }

  /**
   * Once the host is quiet, one delivered snapshot of its state makes the panel equal the host, and no late or
   * repeated delta afterwards undoes it.
   */
  lemma {:induction false} QuietHostConverges(h: History, earlier: seq<Message>, later: seq<Message>)
    requires ValidHistory(h)
    requires forall m :: m in later ==> Published(h, m) && (m.Full? ==> m.snapshot == Last(h))
    ensures Receive(None, earlier + [Full(Last(h))] + later) == Some(Last(h))
    decreases |later|
  {
    if later == [] {
      ReceiveConcat(None, earlier, [Full(Last(h))]);
      assert [Full(Last(h))][1..] == [];
      assert earlier + [Full(Last(h))] + later == earlier + [Full(Last(h))];
    } else {
      var n := |later| - 1;
      var before := earlier + [Full(Last(h))] + later[..n];
      assert earlier + [Full(Last(h))] + later == before + [later[n]];
      QuietHostConverges(h, earlier, later[..n]);
      ReceiveConcat(None, before, [later[n]]);
      assert [later[n]][1..] == [];
      assert later[n] in later;
      if later[n].Update? && later[n].delta.revision == Last(h).revision {
        DeltaNotAhead(h, later[n].delta);
      }
    }
  }

  /** A panel that is behind and hears the newest delta either catches up or asks for a sync. */
  lemma NewestDeltaIsNoticed(h: History, shown: Option<Snapshot>)
    requires ValidHistory(h) && |h.deltas| > 0 && h.deltas[|h.deltas| - 1].Some?
    requires shown.Some? ==> shown.value in h.states
    requires shown != Some(Last(h))
    ensures var (next, ask) := PanelStep(shown, Update(h.deltas[|h.deltas| - 1].value));
      next == Some(Last(h)) || (next == shown && ask.Some?)
  {
    var n := |h.deltas|;
    var a, d := h.states[n - 1], h.deltas[n - 1].value;
    assert HostStep(a, h.states[n], h.deltas[n - 1]);
    if shown == Some(a) {
      DeltaReproducesStep(a, h.states[n], d);
    } else if shown.Some? && shown.value.revision == d.revision {
      var i :| 0 <= i < |h.states| && h.states[i] == shown.value;
      assert i < n - 1;
      StateBehind(h, i, n - 1);
    }
  }

  lemma StateBehind(h: History, i: nat, j: nat)
    requires ValidHistory(h) && i < j < |h.states| && h.states[i].revision == h.states[j].revision
    ensures h.states[i].seqNo < h.states[j].seqNo
  {
    HistoryClimbs(h, i, j);
  }
}
