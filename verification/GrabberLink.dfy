/**
 * The colour grabber at its mailbox: whether a run can be finished when the reports have to come through the device
 * slot.
 */
module GrabberLink {
  import opened Common
  import opened Bytes
  import opened ColorReport
  import opened ColorFrames
  import CS = ColorStack
  import Link = Mailbox

  /** The traffic on the device slot since the previous call of `update`, and the call. */
  datatype Round = Round(bus: seq<Link.Event>, tick: FrameTick)

  function Ticks(rounds: seq<Round>): (ts: seq<FrameTick>)
    ensures |ts| == |rounds|
  {
    seq(|rounds|, i requires 0 <= i < |rounds| => rounds[i].tick)
  }

  /** The bytes are none, or a frame that the reader returned between `s` and `r`. */
  predicate Returns(s: Link.System, r: Link.System, frame: bytes) {
    frame == [] || exists k :: |s.fates| <= k < |r.fates| && r.fates[k] == Link.Returned(frame)
  }

  /** Every call hears what the mailbox's reader returned since the previous one, or nothing. */
  predicate Heard(c: Link.Config, s: Link.System, rounds: seq<Round>)
    requires Link.WellTyped(c, s)
    decreases |rounds|
  {
    rounds == [] ||
    var r := Link.Run(c, s, rounds[0].bus);
    Returns(s, r, rounds[0].tick.frame) && Heard(c, r, rounds[1..])
  }

  // ---- A stuck slot is silent ----

  lemma {:induction false} StuckIsSilent(c: Link.Config, s: Link.System, rounds: seq<Round>)
    requires Link.Inv(c, s) && Link.Stuck(c, s) && Heard(c, s, rounds)
    ensures forall t :: t in Ticks(rounds) ==> t.frame == []
    decreases |rounds|
  {
    if rounds != [] {
      Link.StuckForever(c, s, rounds[0].bus);
      hide Link.Run, Link.Inv, Link.Stuck;
      StuckIsSilent(c, Link.Run(c, s, rounds[0].bus), rounds[1..]);
      forall t | t in Ticks(rounds) ensures t.frame == [] {
        var i :| 0 <= i < |rounds| && rounds[i].tick == t;
        assert i > 0 ==> Ticks(rounds[1..])[i - 1] == t;
      }
    }
  }

  /** Without a report the grabber goes on searching. */
  lemma {:induction false} SilenceIsSearch(setup: CS.Setup, m: CS.Machine, ts: seq<FrameTick>)
    requires m.busy && m.phase == CS.Search && forall t :: t in ts ==> t.frame == []
    ensures var r := RunOnFrames(setup, m, ts); r.busy && r.phase == CS.Search && r.orders == m.orders
  {
    if ts != [] {
      SilenceIsSearch(setup, m, ts[..|ts| - 1]);
      assert ts[|ts| - 1] in ts;
      hide CS.Advance, CS.HandleColor;
    }
  }

  // ---- Which colours can be reported ----

  /** The name fits the buffer and has no zero in it. */
  predicate Nameable(color: bytes) {
    |color| <= 31 && 0 !in color
  }

  lemma {:induction false} CStringHasNoZero(s: bytes)
    ensures 0 !in CString(s)
    ensures |CString(s)| <= |s| && (0 !in s ==> CString(s) == s)
  {
    if s != [] && s[0] != 0 {
      CStringHasNoZero(s[1..]);
      assert s == [s[0]] + s[1..];
    }
  }

  /** A colour matches some name exactly if it is nameable, and then its own. */
  lemma MatchesIffNameable(color: bytes)
    ensures Nameable(color) ==> Matches(color, color)
    ensures !Nameable(color) ==> forall name :: !Matches(color, name)
  {
    CStringHasNoZero(color);
    assert |color| <= MAX_NAME ==> color[..Min(|color|, MAX_NAME)] == color;
    forall name | !Nameable(color) ensures !Matches(color, name) {
      var n := CString(name[..Min(|name|, MAX_NAME)]);
      CStringHasNoZero(name[..Min(|name|, MAX_NAME)]);
      if |color| == |n| {
        var i :| 0 <= i < |color| && color[i] == 0;
        assert n[i] in n && Lower(n[i]) != Lower(color[i]);
      }
    }
  }

  lemma {:induction false} UnwantedBlobs(rest: bytes, n: nat)
    ensures ScanBlobs(rest, n, false, None).1 == None
    decreases n
  {
    if n > 0 && |rest| >= 10 {
      UnwantedBlobs(rest[10..], n - 1);
    }
  }

  /** Whatever is reported, a colour that is not nameable is not found. */
  lemma {:induction false} UnnameableIsNotFound(rest: bytes, n: nat, color: bytes)
    requires !Nameable(color)
    ensures ScanGroups(rest, n, color, None) == None
    decreases n
  {
    MatchesIffNameable(color);
    hide Matches, Nameable;
    if n > 0 && ScanGroup(rest, color, None).Some? {
      var k: nat := rest[0] as int + 1;
      UnwantedBlobs(rest[k + 1..], rest[k]);
      UnnameableIsNotFound(ScanGroup(rest, color, None).value.0, n - 1, color);
    }
  }

  lemma UnnameableIsNotSeen(frame: bytes, color: bytes)
    requires !Nameable(color)
    ensures !Polled(frame, color).Seen?
  {
    forall rest, n: nat ensures ScanGroups(rest, n, color, None) == None {
      UnnameableIsNotFound(rest, n, color);
    }
    hide ScanGroups, Nameable, Join;
  }

  /** One block of the colour in the middle of the picture. */
  function Centred(color: bytes): seq<Group> {
    [Group(color, [Blob(160, 120, 20, 20, 0)])]
  }

  lemma CentredIsShort(color: bytes)
    requires Nameable(color)
    ensures (forall g :: g in Centred(color) ==> Encodable(g)) && |ColorReport.Encode(Centred(color))| == 13 + |color|
  {
    var g := Centred(color)[0];
    assert BlobsBytes(g.blobs[1..]) == [];
    assert |BlobsBytes(g.blobs)| == 10;
    assert Centred(color)[1..] == [];
    assert |GroupsBytes(Centred(color))| == |GroupBytes(g)|;
  }

  /** The frame that reports it. */
  function Sighting(color: bytes): (frame: bytes)
    requires Nameable(color)
    ensures |frame| == 21 + |color|
  {
    CentredIsShort(color);
    DetectionFrame(Centred(color), 0, 0)
  }

  lemma SightingIsSeen(color: bytes)
    requires Nameable(color)
    ensures Polled(Sighting(color), color) == CS.Seen(160, 120)
  {
    CentredIsShort(color);
    DetectionsAreUnderstood(Centred(color), 0, 0, color);
    MatchesIffNameable(color);
    hide Polled, Matches;
  }

  // ---- A colour that cannot be reported stops the run ----

  /** The machine has not got past colour `k`. */
  predicate Before(m: CS.Machine, k: nat) {
    m.busy && (m.index < k || (m.index == k && m.phase == CS.Search))
  }

  lemma StaysBefore(c: CS.Setup, m: CS.Machine, e: CS.Event, k: nat)
    requires CS.OnPlan(c, m) && k < |CS.Plan(m.list, m.count)| && Before(m, k)
    requires m.index == k ==> !e.report.Seen?
    ensures Before(CS.Step(c, m, e), k)
  {
    hide CS.Clamp, CS.OnScript;
  }

  lemma {:induction false} UnnameableIsNotPassed(c: CS.Setup, m: CS.Machine, ts: seq<FrameTick>, k: nat)
    requires CS.OnPlan(c, m) && k < |CS.Plan(m.list, m.count)| && Before(m, k)
    requires !Nameable(NameOf(CS.Plan(m.list, m.count)[k]))
    ensures var r := RunOnFrames(c, m, ts);
      CS.OnPlan(c, r) && r.list == m.list && r.count == m.count && Before(r, k)
  {
    if ts != [] {
      var q := RunOnFrames(c, m, ts[..|ts| - 1]);
      UnnameableIsNotPassed(c, m, ts[..|ts| - 1], k);
      var e := EventOf(q, ts[|ts| - 1]);
      if q.index == k {
        assert q.current == CS.Plan(q.list, q.count)[k];
        UnnameableIsNotSeen(ts[|ts| - 1].frame, NameOf(q.current));
      }
      StaysBefore(c, q, e, k);
      CS.StepIsOnPlan(c, q, e);
      CS.StepKeepsTheList(c, q, e);
      hide CS.Step, CS.OnPlan, Polled, Nameable;
    }
  }

  // ---- Otherwise it can be finished ----

  /** The slot is drained, the camera posts a frame and the grabber reads it. */
  lemma Transfers(c: Link.Config, s: Link.System, frame: bytes) returns (es: seq<Link.Event>)
    requires Link.Inv(c, s) && !Link.Stuck(c, s) && c.Legal(frame)
    ensures var r := Link.Run(c, s, es);
      Link.Inv(c, r) && !Link.Stuck(c, r) && Returns(s, r, frame)
  {
    var draining := Link.Drains(c, s);
    var d := Link.Run(c, s, draining);
    var passing := Passes(c, d, frame);
    Link.RunAppend(c, s, draining, passing);
    es := draining + passing;
    hide Link.Run;
    assert Link.Run(c, s, es).fates[|d.fates|] == Link.Returned(frame);
  }

  lemma Passes(c: Link.Config, d: Link.System, frame: bytes) returns (es: seq<Link.Event>)
    requires Link.Inv(c, d) && d.writer == Link.WIdle && d.slot.meta.state == Link.EMPTY && c.Legal(frame)
    ensures var r := Link.Run(c, d, es);
      Link.Inv(c, r) && !Link.Stuck(c, r) && r.fates == d.fates + [Link.Returned(frame)]
  {
    var writing := Link.UninterruptedWrite(c, d, frame);
    var w := Link.Run(c, d, writing);
    var reading := Link.UninterruptedRead(c, w);
    Link.RunAppend(c, d, writing, reading);
    es := writing + reading;
    Link.RunKeepsInv(c, d, es);
    assert w.slot.data[..|frame|] == frame;
  }

  predicate AllNameable(colors: seq<CS.Color>) {
    forall k :: 0 <= k < |colors| ==> Nameable(NameOf(colors[k]))
  }

  /** The run comes to its end on what the mailbox's reader returns. */
  predicate Finishes(
      c: Link.Config, s: Link.System, setup: CS.Setup, m: CS.Machine, clock: nat, rounds: seq<Round>)
    requires Link.WellTyped(c, s)
  {
    && Heard(c, s, rounds) && CS.Timely(clock, Events(setup, m, Ticks(rounds)))
    && !RunOnFrames(setup, m, Ticks(rounds)).busy
  }

  const STRAIGHT := CS.Bearing(1.0, 0.0)

  /** Slots and buffer hold the report of one block. */
  predicate Roomy(c: Link.Config) {
    c.bufSize == 256 && 52 <= c.slotSize
  }

  lemma HeardCons(c: Link.Config, s: Link.System, round: Round, rest: seq<Round>)
    requires Link.WellTyped(c, s) && Returns(s, Link.Run(c, s, round.bus), round.tick.frame)
    requires Heard(c, Link.Run(c, s, round.bus), rest)
    ensures Heard(c, s, [round] + rest) && Ticks([round] + rest) == [round.tick] + Ticks(rest)
  {
    hide Link.Run, Link.WellTyped, Returns;
    assert ([round] + rest)[1..] == rest;
  }

  lemma FinishesCons(
      c: Link.Config, s: Link.System, setup: CS.Setup, m: CS.Machine, clock: nat, round: Round, rest: seq<Round>)
    requires Link.WellTyped(c, s) && clock <= round.tick.now <= round.tick.late
    requires Returns(s, Link.Run(c, s, round.bus), round.tick.frame)
    requires var q := CS.Step(setup, m, EventOf(m, round.tick));
      Finishes(c, Link.Run(c, s, round.bus), setup, q, round.tick.late, rest)
    ensures Finishes(c, s, setup, m, clock, [round] + rest)
  {
    hide Heard, Returns, Link.Run, Link.WellTyped, Ticks, Polled, Events, RunOnFrames, CS.Step, CS.Run, CS.Timely;
    HeardCons(c, s, round, rest);
    RunOnFramesCons(setup, m, round.tick, Ticks(rest));
    var q := CS.Step(setup, m, EventOf(m, round.tick));
    CS.TimelyCons(clock, EventOf(m, round.tick), Events(setup, q, Ticks(rest)));
  }

  /** A round that brings the run closer to its end, and what it takes for that. */
  predicate Moves(
      c: Link.Config, s: Link.System, setup: CS.Setup, m: CS.Machine, clock: nat, round: Round)
    requires Link.WellTyped(c, s) && CS.OnPlan(setup, m) && m.busy
  {
    var r, q := Link.Run(c, s, round.bus), CS.Step(setup, m, EventOf(m, round.tick));
    && Link.Inv(c, r) && !Link.Stuck(c, r) && Returns(s, r, round.tick.frame)
    && clock <= round.tick.now <= round.tick.late
    && CS.OnPlan(setup, q) && (q.busy ==> CS.Remaining(q) < CS.Remaining(m))
  }

  lemma SearchMoves(c: Link.Config, s: Link.System, setup: CS.Setup, m: CS.Machine, clock: nat) returns (round: Round)
    requires Link.Inv(c, s) && !Link.Stuck(c, s) && Roomy(c)
    requires CS.OnPlan(setup, m) && m.busy && m.phase == CS.Search && Nameable(NameOf(m.current))
    ensures Moves(c, s, setup, m, clock, round)
  {
    hide Link.Run, Link.Inv, Link.Stuck, CS.OnPlan, CS.Step, CS.Remaining, Sighting, Polled;
    var e, frame := CS.Towards(m, clock, STRAIGHT), Sighting(NameOf(m.current));
    var bus := Transfers(c, s, frame);
    round := Round(bus, FrameTick(e.now, e.late, frame, STRAIGHT));
    SightingIsSeen(NameOf(m.current));
    assert e == EventOf(m, round.tick);
    CS.SearchAdvances(setup, m, clock, STRAIGHT);
  }

  lemma PhaseMoves(c: Link.Config, s: Link.System, setup: CS.Setup, m: CS.Machine, clock: nat) returns (round: Round)
    requires Link.Inv(c, s) && !Link.Stuck(c, s)
    requires CS.OnPlan(setup, m) && m.busy && m.phase.Timed()
    ensures Moves(c, s, setup, m, clock, round)
  {
    hide Link.Inv, Link.Stuck, CS.OnPlan, CS.Step, CS.Remaining;
    var e := CS.Towards(m, clock, STRAIGHT);
    round := Round([], FrameTick(e.now, e.late, [], STRAIGHT));
    assert e == EventOf(m, round.tick);
    CS.PhaseAdvances(setup, m, clock, STRAIGHT);
  }

  lemma BusyIsSearchingOrTimed(setup: CS.Setup, m: CS.Machine)
    requires CS.OnPlan(setup, m) && m.busy && AllNameable(CS.Plan(m.list, m.count))
    ensures m.phase == CS.Search || m.phase.Timed()
    ensures Nameable(NameOf(m.current))
  {
    hide CS.OnScript, Nameable;
  }

  lemma {:induction false} CanFinish(c: Link.Config, s: Link.System, setup: CS.Setup, m: CS.Machine, clock: nat)
    returns (rounds: seq<Round>)
    requires Link.Inv(c, s) && !Link.Stuck(c, s) && Roomy(c)
    requires CS.OnPlan(setup, m) && AllNameable(CS.Plan(m.list, m.count))
    ensures Finishes(c, s, setup, m, clock, rounds)
    decreases if m.busy then CS.Remaining(m) + 1 else 0
  {
    if !m.busy {
      rounds := [];
    } else {
      hide Link.Run, Link.Stuck, CS.Step, CS.Remaining, Polled, Finishes, AllNameable, Returns;
      BusyIsSearchingOrTimed(setup, m);
      hide CS.OnPlan, Link.Inv;
      var round: Round;
      if m.phase == CS.Search {
        round := SearchMoves(c, s, setup, m, clock);
      } else {
        round := PhaseMoves(c, s, setup, m, clock);
      }
      var q := CS.Step(setup, m, EventOf(m, round.tick));
      CS.StepKeepsTheList(setup, m, EventOf(m, round.tick));
      var rest := CanFinish(c, Link.Run(c, s, round.bus), setup, q, round.tick.late);
      FinishesCons(c, s, setup, m, clock, round, rest);
      rounds := [round] + rest;
    }
  }

  /** The grabber starts over a slot that is not empty: it never gets past its first search. */
  lemma StalledStartNeverFinishes(c: Link.Config, s: Link.System, setup: CS.Setup, m: CS.Machine, clock: nat)
    requires Link.Inv(c, s) && c.reader == Link.ColorGrabber && s.slot.meta.state != Link.EMPTY
    requires m.busy && m.phase == CS.Search
    ensures forall rounds :: !Finishes(c, Link.Step(c, s, Link.ReaderRestart), setup, m, clock, rounds)
  {
    var r := Link.Step(c, s, Link.ReaderRestart);
    Link.StuckByStep(c, s, Link.ReaderRestart);
    Link.StepInv(c, s, Link.ReaderRestart);
    hide Link.Step, Link.Inv, Link.Stuck, Heard, RunOnFrames;
    forall rounds | Heard(c, r, rounds) ensures RunOnFrames(setup, m, Ticks(rounds)).busy {
      StuckIsSilent(c, r, rounds);
      SilenceIsSearch(setup, m, Ticks(rounds));
    }
  }

  lemma UnnameableNeverFinishes(c: Link.Config, s: Link.System, setup: CS.Setup, m: CS.Machine, clock: nat, k: nat)
    requires Link.WellTyped(c, s) && CS.OnPlan(setup, m) && k < |CS.Plan(m.list, m.count)| && Before(m, k)
    requires !Nameable(NameOf(CS.Plan(m.list, m.count)[k]))
    ensures forall rounds :: !Finishes(c, s, setup, m, clock, rounds)
  {
    hide Link.WellTyped, Heard, RunOnFrames;
    forall rounds ensures RunOnFrames(setup, m, Ticks(rounds)).busy {
      UnnameableIsNotPassed(setup, m, Ticks(rounds), k);
    }
  }

  /**
   * A run of one to eight colours, its reports coming through the mailbox, can be finished exactly if the device slot
   * is EMPTY when `start` initialises the mailbox and every colour can be reported. Otherwise nothing that happens
   * later helps.
   */
  lemma FinishableIff(
      c: Link.Config, s: Link.System, setup: CS.Setup, m: CS.Machine, colors: seq<CS.Color>, count: nat, at: nat)
    requires Link.Inv(c, s) && c.reader == Link.ColorGrabber && Roomy(c)
    requires |m.list| == 8 && 1 <= count <= 8 && count <= |colors| && m.lastMove <= at
    ensures var ready, start := Link.Step(c, s, Link.ReaderRestart), CS.Start(m, colors, count, true, at);
      (exists rounds :: Finishes(c, ready, setup, start, at, rounds)) <==>
        s.slot.meta.state == Link.EMPTY && AllNameable(colors[..count])
  {
    var ready, start := Link.Step(c, s, Link.ReaderRestart), CS.Start(m, colors, count, true, at);
    CS.StartIsOnPlan(setup, m, colors, count, at);
    assert start.count == count && start.index == 0 && start.phase == CS.Search;
    Link.StepInv(c, s, Link.ReaderRestart);
    Link.StuckByStep(c, s, Link.ReaderRestart);
    if s.slot.meta.state != Link.EMPTY {
      StalledStartNeverFinishes(c, s, setup, start, at);
    } else if !AllNameable(colors[..count]) {
      var k :| 0 <= k < count && !Nameable(NameOf(colors[..count][k]));
      UnnameableNeverFinishes(c, ready, setup, start, at, k);
    } else {
      var rounds := CanFinish(c, ready, setup, start, at);
    }
  }
}
