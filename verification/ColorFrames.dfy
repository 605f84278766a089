/** From the bytes of the camera's frames to the runs of the grabber. */
module ColorFrames {
  import opened Common
  import opened Bytes
  import opened ColorReport
  import CS = ColorStack
  import Codec = FrameCodec

  const RPT_KIND := 2
  const RPT_DETECT_BBOX: byte := 0x72
  const RPT_DETECT_COLOR: byte := 0x75

  function NameOf(color: CS.Color): bytes {
    seq(|color.name|, i requires 0 <= i < |color.name| => (color.name[i] as int) % 256)
  }

  /** What `handleColor` takes from a payload that is not empty; no groups and no match are the same. */
  function Reported(payload: bytes, color: bytes): CS.Report {
    if payload == [] then CS.Nothing
    else
      match ScanGroups(payload[1..], payload[0], color, None)
      case None => CS.Lost
      case Some(spot) => CS.Seen(spot.cx, spot.cy)
  }

  /** `parseFrame` of the grabber: header, length, kind and function. It does not look at the frame's XOR. */
  function Polled(frame: bytes, color: bytes): CS.Report {
    if |frame| < 8 || frame[0] != Codec.FRAME_H0 || frame[1] != Codec.FRAME_H1 then CS.Nothing
    else
      var n := Join(frame[2], frame[3]);
      if 8 + n > |frame| || Codec.KindOf(frame[4]) != RPT_KIND then CS.Nothing
      else if frame[5] == RPT_DETECT_COLOR then Reported(frame[7..7 + n], color)
      else if frame[5] == RPT_DETECT_BBOX && n >= 1 && frame[7] == 0 then CS.EmptyBox
      else CS.Nothing
  }

  /** One call of `update`, with the bytes that a poll of the mailbox would read; none is the empty sequence. */
  datatype FrameTick = FrameTick(now: nat, late: nat, frame: bytes, bearing: CS.Bearing)

  function EventOf(m: CS.Machine, t: FrameTick): CS.Event {
    CS.Tick(t.now, t.late, Polled(t.frame, NameOf(m.current)), t.bearing)
  }

  /** The machine after some calls that find these bytes; each report is read for the colour then wanted. */
  function RunOnFrames(c: CS.Setup, m: CS.Machine, ts: seq<FrameTick>): CS.Machine {
    if ts == [] then m
    else
      var q := RunOnFrames(c, m, ts[..|ts| - 1]);
      CS.Step(c, q, EventOf(q, ts[|ts| - 1]))
  }

  function Events(c: CS.Setup, m: CS.Machine, ts: seq<FrameTick>): (es: seq<CS.Event>)
    ensures |es| == |ts|
    ensures forall i :: 0 <= i < |ts| ==> es[i].now == ts[i].now && es[i].late == ts[i].late
  {
    if ts == [] then []
    else
      var before := ts[..|ts| - 1];
      Events(c, m, before) + [EventOf(RunOnFrames(c, m, before), ts[|ts| - 1])]
  }

  /** A run on bytes is a run on the reports in them. */
  lemma {:induction false} RunOnFramesIsARun(c: CS.Setup, m: CS.Machine, ts: seq<FrameTick>)
    ensures RunOnFrames(c, m, ts) == CS.Run(c, m, Events(c, m, ts))
  {
    if ts != [] {
      var before, es := ts[..|ts| - 1], Events(c, m, ts);
      RunOnFramesIsARun(c, m, before);
      assert es[..|es| - 1] == Events(c, m, before);
      hide CS.Step, Polled;
    }
  }

  lemma {:induction false} RunOnFramesCons(c: CS.Setup, m: CS.Machine, t: FrameTick, ts: seq<FrameTick>)
    ensures var q := CS.Step(c, m, EventOf(m, t));
      && RunOnFrames(c, m, [t] + ts) == RunOnFrames(c, q, ts)
      && Events(c, m, [t] + ts) == [EventOf(m, t)] + Events(c, q, ts)
  {
    hide CS.Step, Polled;
    if ts == [] {
      assert [t] + ts == [t] && [t][..0] == [];
    } else {
      var all := [t] + ts;
      assert all[..|all| - 1] == [t] + ts[..|ts| - 1];
      RunOnFramesCons(c, m, t, ts[..|ts| - 1]);
    }
  }

  /** Whatever bytes the camera sends, a run of one to eight colours follows the plan. */
  lemma FramesFollowThePlan(
      c: CS.Setup, m: CS.Machine, colors: seq<CS.Color>, count: nat, at: nat, ts: seq<FrameTick>)
    requires |m.list| == 8 && 1 <= count <= 8 && count <= |colors| && m.lastMove <= at
    requires CS.Timely(at, Events(c, CS.Start(m, colors, count, true, at), ts))
    ensures CS.FollowsThePlan(c, colors, count, RunOnFrames(c, CS.Start(m, colors, count, true, at), ts))
  {
    var s := CS.Start(m, colors, count, true, at);
    hide *;
    RunOnFramesIsARun(c, s, ts);
    CS.RunsFollowThePlan(c, m, colors, count, at, Events(c, s, ts));
  }

  /** The frame in which the camera reports `gs`. */
  function DetectionFrame(gs: seq<Group>, number: nat, txn: byte): bytes
    requires |gs| < 256 && (forall g :: g in gs ==> Encodable(g)) && |ColorReport.Encode(gs)| < 0x1_0000 - 8
    requires number < Codec.SEQ_MODULUS
  {
    Codec.Encode(Codec.Fragment(2, false, number, 0x75, txn, ColorReport.Encode(gs)))
  }

  lemma FieldsOf(f: Codec.Fragment)
    requires f.Encodable()
    ensures var e, n := Codec.Encode(f), |f.payload|;
      && |e| == 8 + n && e[0] == Codec.FRAME_H0 && e[1] == Codec.FRAME_H1 && Join(e[2], e[3]) == n
      && Codec.KindOf(e[4]) == f.kind && e[5] == f.func && e[7..7 + n] == f.payload
  {
    Codec.EncodedBytes(f);
    Codec.CtrlRoundTrip(f.kind, f.continuation, f.number);
    JoinSplit(|f.payload|);
    hide Codec.Encode, Codec.KindOf, Codec.Ctrl, Join, Hi, Lo;
  }

  /** A report frame is taken for the first plausible blob of the wanted colour, or for none. */
  lemma DetectionsAreUnderstood(gs: seq<Group>, number: nat, txn: byte, color: bytes)
    requires |gs| < 256 && (forall g :: g in gs ==> Encodable(g)) && |ColorReport.Encode(gs)| < 0x1_0000 - 8
    requires number < Codec.SEQ_MODULUS
    ensures Polled(DetectionFrame(gs, number, txn), color) ==
      match FirstMatch(gs, color) case None => CS.Lost case Some(spot) => CS.Seen(spot.cx, spot.cy)
  {
    var payload := ColorReport.Encode(gs);
    var f := Codec.Fragment(2, false, number, 0x75, txn, payload);
    hide ScanGroups, FirstMatch, ColorReport.Encode, Codec.Encode, Codec.KindOf, Join;
    FieldsOf(f);
    ReportsAreUnderstood(gs, color);
  }

  /** An empty bounding-box report is an empty box, and every frame of another kind or function is nothing. */
  lemma OtherFrames(f: Codec.Fragment, color: bytes)
    requires f.Encodable()
    ensures var p := Polled(Codec.Encode(f), color);
      && (f.kind == 2 && f.func == 0x72 ==>
        p == if f.payload != [] && f.payload[0] == 0 then CS.EmptyBox else CS.Nothing)
      && (f.kind != 2 || (f.func != 0x72 && f.func != 0x75) ==> p == CS.Nothing)
  {
    hide Reported, Codec.Encode, Codec.KindOf, Join;
    FieldsOf(f);
    var e := Codec.Encode(f);
    assert f.payload != [] ==> e[7] == f.payload[0];
  }

  /** So is everything that is not a frame: too short, without the header, or shorter than it says. */
  lemma NoFrame(frame: bytes, color: bytes)
    requires |frame| < 8 || frame[0] != 0xAA || frame[1] != 0x55 || 8 + 256 * (frame[2] as int) + frame[3] > |frame|
    ensures Polled(frame, color) == CS.Nothing
  {
    hide Reported;
  }
}
