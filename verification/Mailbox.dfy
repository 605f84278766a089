/**
 * One slot of the shared mailbox as a state machine whose steps are single I2C transactions.
 * A writer runs `writeHostSlot` and a reader runs `readDevSlot` on the same slot; their transactions may
 * interleave in any order, mixed with restarts of either side, in the middle of a call too. The 8 metadata bytes
 * travel in one transaction, so the slot is a metadata record plus data bytes here; MailboxMemory ties this view to
 * the 4096 raw bytes.
 */
module Mailbox {
  import opened Bytes

  const MAILBOX_SIZE: nat := 4096
  const MAILBOX_HEADER_SIZE: nat := 32
  const WRITE_CHUNK: nat := 30

  datatype SlotState = EMPTY | WRITING | READY | OTHER(code: byte)

  datatype Meta = Meta(state: SlotState, generation: nat, frameLen: nat, frameXor: byte)

  datatype Slot = Slot(meta: Meta, data: bytes)

  /** The two ways in which the firmware's copies of `readDevSlot` are written. */
  datatype ReaderKind = LlmControl | ColorGrabber {
    /** The shortest frame that is handed on. */
    function MinFrame(): nat {
      if LlmControl? then 8 else 1
    }

    /** The bytes read in one transaction. */
    function ReadChunk(): nat {
      if LlmControl? then 32 else 30
    }

    /** Whether a READY slot whose generation was already taken is emptied; otherwise it is left as it is. */
    predicate AcksRepeats() {
      LlmControl?
    }
  }

  /** The slot size both peers read from the mailbox header, the reader's buffer size, and which reader it is. */
  datatype Config = Config(slotSize: nat, bufSize: nat, reader: ReaderKind) {
    predicate Valid() {
      0 < slotSize <= 2032
    }

    /** The lengths the reader hands on; the writer already refuses anything above the slot size. */
    predicate Legal(f: bytes) {
      (if reader == LlmControl then 8 else 1) <= |f| <= bufSize && |f| <= slotSize
    }
  }

  /** Generations count 1..65535 and skip zero when they wrap. */
  function NextGen(g: nat): (n: nat)
    ensures 0 < n < 0x1_0000
    ensures g < 0x1_0000 ==> n == if g == 65535 then 1 else g + 1
  {
    if (g + 1) % 0x1_0000 == 0 then 1 else (g + 1) % 0x1_0000
  }

  /** Where the writer stands inside `writeHostSlot`. */
  datatype Writer =
    | WIdle                               // not inside writeHostSlot
    | WClaim(frame: bytes)                // saw EMPTY; the WRITING metadata goes out next
    | WFill(frame: bytes, off: nat)       // WRITING is out; bytes before off are stored

  /** Where the reader stands inside `readDevSlot`. */
  datatype Reader =
    | RIdle
    | RCopy(meta: Meta, buf: bytes)       // saw a new READY frame; copied buf so far
    | RDuplicate(meta: Meta)              // READY, but the generation was already taken
    | RBadLength(meta: Meta)              // READY, but the length is not usable

  /** How `readDevSlot` disposed of one posted frame. */
  datatype Fate = Returned(frame: bytes) | Corrupt | Skipped

  /**
   * The whole system. `posted`, `fates` and `missed` are history: the frames whose READY metadata went out, what
   * the reader did with each acknowledged one, and whether the reader had restarted while it was in the slot.
   */
  datatype System = System(
    slot: Slot,
    hostGen: nat, writer: Writer,
    devGen: nat, reader: Reader,
    posted: seq<bytes>, fates: seq<Fate>, missed: seq<bool>, restarted: bool)

  /** Everything that can happen; each is at most one bus transaction. */
  datatype Event =
    | Post(frame: bytes)                  // the writer calls writeHostSlot and reads the metadata
    | WriterTx                            // the writer's next transaction
    | Poll                                // the reader calls readDevSlot and reads the metadata
    | ReaderTx                            // the reader's next transaction
    | WriterRestart                       // initMailbox on the writing side; drops the call in progress
    | ReaderRestart                       // initMailbox on the reading side; drops the call in progress

  /** What one event puts on the bus. */
  datatype Write = Nothing | StoreMeta(meta: Meta) | StoreData(at: nat, chunk: bytes)

  function Apply(slot: Slot, w: Write): Slot
    requires w.StoreData? ==> w.at + |w.chunk| <= |slot.data|
  {
    match w
    case Nothing => slot
    case StoreMeta(m) => slot.(meta := m)
    case StoreData(at, chunk) => slot.(data := Splice(slot.data, at, chunk))
  }

  /** 16-bit registers hold 16-bit values and offsets stay inside the frame and the slot. */
  predicate WellTyped(c: Config, s: System) {
    && c.Valid() && |s.slot.data| == c.slotSize && s.hostGen < 0x1_0000 && s.devGen < 0x1_0000
    && s.slot.meta.generation < 0x1_0000 && s.slot.meta.frameLen < 0x1_0000
    && (s.writer.WClaim? ==> |s.writer.frame| <= c.slotSize)
    && (s.writer.WFill? ==> s.writer.off <= |s.writer.frame| <= c.slotSize)
    && (!s.reader.RIdle? ==> s.reader.meta.generation < 0x1_0000)
    && (s.reader.RCopy? ==> |s.reader.buf| <= s.reader.meta.frameLen <= c.slotSize)
  }

  function Announce(s: System, state: SlotState, f: bytes): Meta {
    Meta(state, s.hostGen, |f|, XorAll(f))
  }

  /** The bus write of an event; metadata reads and data reads store nothing. */
  function BusWrite(c: Config, s: System, e: Event): (w: Write)
    requires WellTyped(c, s)
    ensures w.StoreData? ==> w.at + |w.chunk| <= c.slotSize
    ensures w.StoreMeta? ==> w.meta.generation < 0x1_0000 && w.meta.frameLen < 0x1_0000
    ensures w.StoreMeta? ==> !w.meta.state.OTHER?
  {
    match e
    case WriterTx => (
      match s.writer
      case WIdle => Nothing
      case WClaim(f) => StoreMeta(Announce(s, WRITING, f))
      case WFill(f, off) =>
        if off < |f| then StoreData(off, f[off..off + Min(WRITE_CHUNK, |f| - off)])
        else StoreMeta(Announce(s, READY, f)))
    case ReaderTx =>
      if s.reader.RIdle? || (s.reader.RCopy? && |s.reader.buf| < s.reader.meta.frameLen) then Nothing
      else StoreMeta(Meta(EMPTY, s.reader.meta.generation, 0, 0))
    case _ => Nothing
  }

  function Step(c: Config, s: System, e: Event): (s': System)
    requires WellTyped(c, s)
    ensures WellTyped(c, s')
  {
    var next := s.(slot := Apply(s.slot, BusWrite(c, s, e)));
    match e
    case Post(frame) =>
      if !s.writer.WIdle? || |frame| > c.slotSize || s.slot.meta.state != EMPTY then s
      else s.(hostGen := NextGen(s.hostGen), writer := WClaim(frame))
    case WriterTx => (
      match s.writer
      case WIdle => s
      case WClaim(f) => next.(writer := WFill(f, 0))
      case WFill(f, off) =>
        if off < |f| then next.(writer := WFill(f, off + Min(WRITE_CHUNK, |f| - off)))
        else next.(writer := WIdle, posted := s.posted + [f]))
    case Poll => if s.reader.RIdle? then s.(reader := PollResult(c, s)) else s
    case ReaderTx => (
      match s.reader
      case RIdle => s
      case RDuplicate(m) => Acknowledged(next, m, Skipped)
      case RBadLength(m) => Acknowledged(next, m, Skipped)
      case RCopy(m, buf) =>
        if |buf| < m.frameLen then s.(reader := RCopy(m, CopyChunk(c.reader, s.slot.data, buf, m.frameLen)))
        else Acknowledged(next, m, if XorAll(buf) == m.frameXor then Returned(buf) else Corrupt))
    case WriterRestart => s.(hostGen := s.slot.meta.generation, writer := WIdle)
    case ReaderRestart =>
      s.(devGen := s.slot.meta.generation, reader := RIdle, restarted := s.restarted || s.slot.meta.state != EMPTY)
  }

  /** One data transaction of `i2cRead16`: at most 32 or 30 more bytes behind those in `buf`. */
  function CopyChunk(k: ReaderKind, data: bytes, buf: bytes, len: nat): (r: bytes)
    requires |buf| <= len <= |data|
    ensures |r| == |buf| + Min(k.ReadChunk(), len - |buf|)
  {
    buf + data[|buf|..|buf| + Min(k.ReadChunk(), len - |buf|)]
  }

  /**
   * What the metadata make of a call. The colour grabber's reader does not compare the length with the slot size,
   * which makes no difference to any run (ReadyFitsTheSlot).
   */
  function PollResult(c: Config, s: System): (r: Reader)
    requires WellTyped(c, s)
    ensures !r.RIdle? ==> r.meta == s.slot.meta
    ensures r.RCopy? ==> r.buf == [] && r.meta.frameLen <= c.slotSize
  {
    var m := s.slot.meta;
    if m.state != READY then RIdle
    else if m.generation == s.devGen then if c.reader.AcksRepeats() then RDuplicate(m) else RIdle
    else if m.frameLen < c.reader.MinFrame() || m.frameLen > c.bufSize || m.frameLen > c.slotSize then RBadLength(m)
    else RCopy(m, [])
  }

  /** Bookkeeping of the acknowledging transaction, which empties the slot and keeps its generation. */
  function Acknowledged(s: System, m: Meta, fate: Fate): System {
    s.(reader := RIdle, devGen := m.generation,
       fates := s.fates + [fate], missed := s.missed + [s.restarted], restarted := false)
  }

  function Run(c: Config, s: System, es: seq<Event>): (s': System)
    requires WellTyped(c, s)
    ensures WellTyped(c, s')
  {
    if es == [] then s else Step(c, Run(c, s, es[..|es| - 1]), es[|es| - 1])
  }

  /** Both sides have run `initMailbox` on an empty slot, which may hold any generation. */
  predicate Initial(c: Config, s: System) {
    && WellTyped(c, s)
    && s.slot.meta.state == EMPTY && s.hostGen == s.devGen == s.slot.meta.generation
    && s.writer == WIdle && s.reader == RIdle
    && s.posted == [] && s.fates == [] && s.missed == [] && !s.restarted
  }

  // ---- the invariant ----

  /** What must become of a posted frame. */
  function ExpectedFate(c: Config, f: bytes, missed: bool): Fate {
    if !missed && c.Legal(f) then Returned(f) else Skipped
  }

  predicate History(c: Config, s: System) {
    && |s.fates| == |s.missed| <= |s.posted|
    && forall k :: 0 <= k < |s.fates| ==> s.fates[k] == ExpectedFate(c, s.posted[k], s.missed[k])
  }

  predicate SlotEmpty(s: System) {
    && s.slot.meta.state == EMPTY && s.slot.meta.generation == s.devGen
    && s.reader == RIdle && !s.restarted && |s.posted| == |s.fates|
  }

  /** The slot holds a growing prefix of `f`, announced by metadata that match it. */
  predicate SlotHolds(s: System, f: bytes, stored: nat) {
    && stored <= |f| <= |s.slot.data|
    && s.slot.meta == Announce(s, s.slot.meta.state, f)
    && s.slot.data[..stored] == f[..stored]
    && (s.restarted <==> s.devGen == s.hostGen)
  }

  predicate ReaderAgrees(c: Config, s: System, f: bytes) {
    match s.reader
    case RIdle => true
    case RCopy(m, buf) => m == s.slot.meta && !s.restarted && c.Legal(f) && |buf| <= |f| && buf == f[..|buf|]
    case RDuplicate(m) => m == s.slot.meta && s.restarted && c.reader.AcksRepeats()
    case RBadLength(m) => m == s.slot.meta && !s.restarted && !c.Legal(f)
  }

  /** The writer restarted while the slot was WRITING: it is outside its call and the slot was left half written. */
  predicate Abandoned(s: System) {
    s.writer == WIdle && s.slot.meta.state == WRITING
  }

  /** The grabber's reader restarted over a frame: it knows the generation already and will never empty the slot. */
  predicate Stalled(c: Config, s: System) {
    s.restarted && c.reader == ColorGrabber
  }

  predicate Stuck(c: Config, s: System) {
    Abandoned(s) || Stalled(c, s)
  }

  predicate Inv(c: Config, s: System) {
    && WellTyped(c, s) && History(c, s)
    && match s.writer
      case WIdle => (
        if s.slot.meta.state == EMPTY then SlotEmpty(s) && s.slot.meta.generation == s.hostGen
        else if s.slot.meta.state == WRITING then
          |s.posted| == |s.fates| && s.reader == RIdle && s.slot.meta.generation == s.hostGen
        else
          && s.slot.meta.state == READY && |s.posted| == |s.fates| + 1
          && SlotHolds(s, Last(s.posted), |Last(s.posted)|) && ReaderAgrees(c, s, Last(s.posted)))
      case WClaim(f) => SlotEmpty(s) && s.hostGen == NextGen(s.slot.meta.generation)
      case WFill(f, off) =>
        && s.slot.meta.state == WRITING && |s.posted| == |s.fates| && s.reader == RIdle
        && SlotHolds(s, f, off)
  }

  lemma FillStepInv(c: Config, s: System)
    requires Inv(c, s) && s.writer.WFill? && s.writer.off < |s.writer.frame|
    ensures Inv(c, Step(c, s, WriterTx))
  {
    var f, off := s.writer.frame, s.writer.off;
    SpliceContinues(s.slot.data, f, off, Min(WRITE_CHUNK, |f| - off));
    hide XorAll, NextGen;
  }

  lemma PublishStepInv(c: Config, s: System)
    requires Inv(c, s) && s.writer.WFill? && s.writer.off == |s.writer.frame|
    ensures Inv(c, Step(c, s, WriterTx))
  {
    hide XorAll, NextGen;
  }

  lemma WriterStepInv(c: Config, s: System)
    requires Inv(c, s)
    ensures Inv(c, Step(c, s, WriterTx))
  {
    if s.writer.WFill? {
      hide Inv, Step, Initial;
      if s.writer.off < |s.writer.frame| {
        FillStepInv(c, s);
      } else {
        PublishStepInv(c, s);
      }
    } else {
      ClaimStepInv(c, s);
    }
  }

  lemma ClaimStepInv(c: Config, s: System)
    requires Inv(c, s) && !s.writer.WFill?
    ensures Inv(c, Step(c, s, WriterTx))
  {
    hide XorAll;
  }

  lemma CopyChunkReads(k: ReaderKind, data: bytes, f: bytes, done: nat)
    requires done <= |f| <= |data| && data[..|f|] == f
    ensures CopyChunk(k, data, f[..done], |f|) == f[..done + Min(k.ReadChunk(), |f| - done)]
  {
    var n := Min(k.ReadChunk(), |f| - done);
    assert data[done..done + n] == f[done..done + n] by {
      forall i | done <= i < done + n ensures data[i] == f[i] {
        assert data[..|f|][i] == f[i];
      }
    }
    assert f[..done] + f[done..done + n] == f[..done + n];
  }

  lemma CopyStepInv(c: Config, s: System)
    requires Inv(c, s) && s.reader.RCopy?
    ensures Inv(c, Step(c, s, ReaderTx))
  {
    var f := Last(s.posted);
    assert f[..|f|] == f;
    CopyChunkReads(c.reader, s.slot.data, f, |s.reader.buf|);
    hide XorAll, NextGen, CopyChunk;
  }

  lemma ReaderStepInv(c: Config, s: System)
    requires Inv(c, s)
    ensures Inv(c, Step(c, s, ReaderTx))
  {
    if s.reader.RCopy? {
      hide Inv, Step;
      CopyStepInv(c, s);
    }
  }

  /** Every event keeps the invariant. */
  lemma StepInv(c: Config, s: System, e: Event)
    requires Inv(c, s)
    ensures Inv(c, Step(c, s, e))
  {
    match e
    case WriterTx => WriterStepInv(c, s);
    case ReaderTx => ReaderStepInv(c, s);
    case _ =>
  }

  lemma {:induction false} RunKeepsInv(c: Config, s: System, es: seq<Event>)
    requires Inv(c, s)
    ensures Inv(c, Run(c, s, es))
  {
    if es != [] {
      RunKeepsInv(c, s, es[..|es| - 1]);
      StepInv(c, Run(c, s, es[..|es| - 1]), es[|es| - 1]);
    }
  }

  /** So every reachable state satisfies it. */
  lemma RunInv(c: Config, s: System, es: seq<Event>)
    requires Initial(c, s)
    ensures Inv(c, Run(c, s, es))
  {
    RunKeepsInv(c, s, es);
  }

  // ---- what the invariant means for whole runs ----

  /** The frames `readDevSlot` handed to its caller, in order. */
  function Delivered(fates: seq<Fate>): seq<bytes> {
    if fates == [] then [] else
      var last := Last(fates);
      Delivered(fates[..|fates| - 1]) + if last.Returned? then [last.frame] else []
  }

  /** The legal frames among `posted`, in order. */
  function LegalFrames(c: Config, posted: seq<bytes>): seq<bytes> {
    if posted == [] then [] else
      var last := Last(posted);
      LegalFrames(c, posted[..|posted| - 1]) + if c.Legal(last) then [last] else []
  }

  lemma {:induction false} DeliveredIsLegal(c: Config, posted: seq<bytes>, fates: seq<Fate>)
    requires |posted| == |fates|
    requires forall k :: 0 <= k < |fates| ==> fates[k] == ExpectedFate(c, posted[k], false)
    ensures Delivered(fates) == LegalFrames(c, posted)
  {
    if fates != [] {
      DeliveredIsLegal(c, posted[..|posted| - 1], fates[..|fates| - 1]);
    }
  }

  /** Event `i` restarts the reader while frame `k` is in the slot, be it half written, unread or being read. */
  predicate RestartsOver(c: Config, s: System, es: seq<Event>, i: nat, k: nat)
    requires WellTyped(c, s)
  {
    && i < |es| && es[i] == ReaderRestart
    && var q := Run(c, s, es[..i]);
      q.slot.meta.state != EMPTY && |q.fates| == k
  }

  predicate RestartedOver(c: Config, s: System, es: seq<Event>, k: nat)
    requires WellTyped(c, s)
  {
    exists i: nat :: i < |es| && RestartsOver(c, s, es, i, k)
  }

  /**
   * Exactly-once delivery, for every interleaving: at most one frame is in flight, every acknowledged frame was
   * returned byte for byte exactly if its length is legal and no restart of the reader fell while it was in the
   * slot, and otherwise skipped; so no read is ever corrupt.
   */
  lemma EveryFrameHasItsFate(c: Config, s: System, es: seq<Event>)
    requires Initial(c, s)
    ensures var r := Run(c, s, es);
      && |r.fates| <= |r.posted| <= |r.fates| + 1
      && (|r.fates| == |r.posted| <== r.slot.meta.state == EMPTY)
      && (forall k: nat :: k < |r.fates| ==>
        (r.fates[k] == Returned(r.posted[k]) <==>
          c.Legal(r.posted[k]) && !RestartedOver(c, s, es, k)))
      && (forall k: nat :: k < |r.fates| ==> r.fates[k] != Returned(r.posted[k]) ==> r.fates[k] == Skipped)
  {
    RunInv(c, s, es);
    MissedIffRestartedOver(c, s, es);
    hide Run, Initial, RestartedOver;
  }

  /** What a step does to the history of restarts. */
  lemma MissedByStep(c: Config, s: System, e: Event)
    requires Inv(c, s)
    ensures var s' := Step(c, s, e);
      if |s'.fates| == |s.fates| then
        && s'.missed == s.missed
        && (s'.restarted <==> s.restarted || (e == ReaderRestart && s.slot.meta.state != EMPTY))
      else
        && |s'.fates| == |s.fates| + 1 && e != ReaderRestart
        && s'.missed == s.missed + [s.restarted] && !s'.restarted
  {
  }

  /** One more event adds at most one restart over a frame. */
  lemma RestartedOverGrows(c: Config, s: System, es: seq<Event>, k: nat)
    requires WellTyped(c, s) && es != []
    ensures var q := Run(c, s, es[..|es| - 1]);
      RestartedOver(c, s, es, k) <==>
        RestartedOver(c, s, es[..|es| - 1], k) ||
        (es[|es| - 1] == ReaderRestart && q.slot.meta.state != EMPTY && |q.fates| == k)
  {
    var before, last := es[..|es| - 1], |es| - 1;
    assert forall i :: 0 <= i <= last ==> before[..i] == es[..i];
    hide Run;
    if i: nat :| RestartsOver(c, s, before, i, k) {
      assert RestartsOver(c, s, es, i, k);
    }
    if i: nat :| RestartsOver(c, s, es, i, k) {
      assert i == last || RestartsOver(c, s, before, i, k);
    }
    assert RestartsOver(c, s, es, last, k) <==>
      es[last] == ReaderRestart && Run(c, s, before).slot.meta.state != EMPTY && |Run(c, s, before).fates| == k;
  }

  /** The reader missed exactly the frames that were in the slot when it restarted. */
  lemma {:induction false} MissedIffRestartedOver(c: Config, s: System, es: seq<Event>)
    requires Initial(c, s)
    ensures var r := Run(c, s, es);
      && |r.missed| == |r.fates|
      && (forall k: nat :: k < |r.fates| ==> (r.missed[k] <==> RestartedOver(c, s, es, k)))
      && (r.restarted <==> RestartedOver(c, s, es, |r.fates|))
      && (forall k: nat :: RestartedOver(c, s, es, k) ==> k <= |r.fates|)
  {
    if es != [] {
      var before, e := es[..|es| - 1], es[|es| - 1];
      var q := Run(c, s, before);
      RunInv(c, s, before);
      MissedByStep(c, q, e);
      MissedIffRestartedOver(c, s, before);
      assert Run(c, s, es) == Step(c, q, e);
      hide Run, Step, Inv, Initial, RestartedOver;
      forall k: nat
        ensures RestartedOver(c, s, es, k) <==>
          RestartedOver(c, s, before, k) || (e == ReaderRestart && q.slot.meta.state != EMPTY && |q.fates| == k)
      {
        RestartedOverGrows(c, s, es, k);
      }
    }
  }

  /** Without a restart of the reader the frames returned are the legal frames posted, in order, each once. */
  lemma InOrderExactlyOnce(c: Config, s: System, es: seq<Event>)
    requires Initial(c, s) && ReaderRestart !in es
    ensures var r := Run(c, s, es);
      && |r.fates| <= |r.posted|
      && Delivered(r.fates) == LegalFrames(c, r.posted[..|r.fates|])
      && (r.slot.meta.state == EMPTY ==> Delivered(r.fates) == LegalFrames(c, r.posted))
  {
    var r := Run(c, s, es);
    RunInv(c, s, es);
    MissedIffRestartedOver(c, s, es);
    DeliveredIsLegal(c, r.posted[..|r.fates|], r.fates);
    if r.slot.meta.state == EMPTY {
      assert r.posted[..|r.fates|] == r.posted;
    }
  }

  /**
   * A reader that restarts while a frame is being written, waits unread or is being read loses exactly that frame:
   * whatever happens next, it is skipped when its turn comes.
   */
  lemma RestartLosesTheFrameInTheSlot(c: Config, s: System, es: seq<Event>)
    requires Inv(c, s) && s.slot.meta.state != EMPTY
    ensures var r := Run(c, Step(c, s, ReaderRestart), es);
      |r.fates| <= |s.fates| || r.fates[|s.fates|] == Skipped
  {
    StepInv(c, s, ReaderRestart);
    StaysMissed(c, Step(c, s, ReaderRestart), es);
  }

  lemma {:induction false} StaysMissed(c: Config, s: System, es: seq<Event>)
    requires Inv(c, s) && s.restarted
    ensures var r := Run(c, s, es);
      && Inv(c, r)
      && (if |r.fates| <= |s.fates| then r.restarted && r.fates == s.fates else r.fates[|s.fates|] == Skipped)
  {
    if es != [] {
      var e, q := es[|es| - 1], Run(c, s, es[..|es| - 1]);
      StaysMissed(c, s, es[..|es| - 1]);
      StepInv(c, q, e);
      FatesGrow(c, q, e);
    }
  }

  /** A step appends at most one fate; if a restarted reader acknowledges, that fate is a skip. */
  lemma FatesGrow(c: Config, s: System, e: Event)
    requires Inv(c, s)
    ensures var s' := Step(c, s, e);
      && s.fates <= s'.fates && |s'.fates| <= |s.fates| + 1 && s.posted <= s'.posted
      && (s.restarted ==> if s'.fates == s.fates then s'.restarted else s'.fates[|s.fates|] == Skipped)
  {
  }

  /** The frame of a `writeHostSlot` call that is not turned away. */
  function Accepted(c: Config, s: System, e: Event): seq<bytes> {
    if e.Post? && s.writer == WIdle && |e.frame| <= c.slotSize && s.slot.meta.state == EMPTY then [e.frame] else []
  }

  function AcceptedCalls(c: Config, s: System, es: seq<Event>): seq<bytes>
    requires WellTyped(c, s)
  {
    if es == [] then [] else
      AcceptedCalls(c, s, es[..|es| - 1]) + Accepted(c, Run(c, s, es[..|es| - 1]), Last(es))
  }

  /** An accepted call; `cut` if the writer restarted before its READY metadata went out. */
  datatype Call = Call(frame: bytes, cut: bool)

  /** The last call is cut off by a restart. */
  function Cut(calls: seq<Call>): seq<Call> {
    if calls == [] then [] else calls[..|calls| - 1] + [Last(calls).(cut := true)]
  }

  function Logged(c: Config, s: System, e: Event, calls: seq<Call>): seq<Call> {
    if e == WriterRestart && s.writer != WIdle then Cut(calls)
    else if Accepted(c, s, e) != [] then calls + [Call(e.frame, false)]
    else calls
  }

  /** The accepted calls of a run. */
  function CallLog(c: Config, s: System, es: seq<Event>): seq<Call>
    requires WellTyped(c, s)
  {
    if es == [] then [] else
      Logged(c, Run(c, s, es[..|es| - 1]), Last(es), CallLog(c, s, es[..|es| - 1]))
  }

  function FramesOf(calls: seq<Call>): (fs: seq<bytes>)
    ensures |fs| == |calls|
  {
    seq(|calls|, i requires 0 <= i < |calls| => calls[i].frame)
  }

  /** The frames of the calls that no restart cut off. */
  function Kept(calls: seq<Call>): seq<bytes> {
    if calls == [] then [] else
      Kept(calls[..|calls| - 1]) + if Last(calls).cut then [] else [Last(calls).frame]
  }

  function PostedOrInHand(s: System): seq<bytes> {
    s.posted + if s.writer == WIdle then [] else [s.writer.frame]
  }

  lemma StepTakesAcceptedCalls(c: Config, s: System, e: Event)
    requires WellTyped(c, s)
    ensures var s' := Step(c, s, e);
      if e == WriterRestart then s'.writer == WIdle && s'.posted == s.posted
      else
        && PostedOrInHand(s') == PostedOrInHand(s) + Accepted(c, s, e)
        && (s'.writer != WIdle ==>
          if Accepted(c, s, e) == [] then s.writer != WIdle && s'.writer.frame == s.writer.frame
          else Accepted(c, s, e) == [s'.writer.frame])
  {
  }

  lemma KeptNext(calls: seq<Call>, call: Call)
    ensures Kept(calls + [call]) == Kept(calls) + if call.cut then [] else [call.frame]
  {
    assert (calls + [call])[..|calls|] == calls;
  }

  /** The call in progress is the last in the log, and not cut. */
  predicate InHandIsLast(s: System, calls: seq<Call>) {
    s.writer != WIdle ==> calls != [] && Last(calls) == Call(s.writer.frame, false)
  }

  lemma CutDropsTheLast(calls: seq<Call>, f: bytes)
    requires calls != [] && Last(calls) == Call(f, false)
    ensures Kept(calls) == Kept(Cut(calls)) + [f] && FramesOf(Cut(calls)) == FramesOf(calls)
  {
    KeptNext(calls[..|calls| - 1], Call(f, true));
  }

  lemma FramesOfNext(calls: seq<Call>, call: Call)
    ensures FramesOf(calls + [call]) == FramesOf(calls) + [call.frame]
  {
  }

  /** One event keeps log, calls and posted frames in step. */
  lemma LogStep(c: Config, s: System, e: Event, calls: seq<Call>, accepted: seq<bytes>)
    requires WellTyped(c, s)
    requires FramesOf(calls) == accepted && Kept(calls) == PostedOrInHand(s) && InHandIsLast(s, calls)
    ensures var s', calls' := Step(c, s, e), Logged(c, s, e, calls);
      && FramesOf(calls') == accepted + Accepted(c, s, e)
      && Kept(calls') == PostedOrInHand(s') && InHandIsLast(s', calls')
  {
    StepTakesAcceptedCalls(c, s, e);
    hide Step, Kept, FramesOf, Cut;
    if e == WriterRestart && s.writer != WIdle {
      var f := s.writer.frame;
      CutDropsTheLast(calls, f);
      assert Kept(Cut(calls)) == (Kept(Cut(calls)) + [f])[..|s.posted|] == (s.posted + [f])[..|s.posted|];
      assert accepted + [] == accepted;
    } else if Accepted(c, s, e) != [] {
      KeptNext(calls, Call(e.frame, false));
      FramesOfNext(calls, Call(e.frame, false));
    }
  }

  /**
   * Frames are posted in the order of the accepted calls. A call that a restart cut off is lost whole, the call in
   * progress is outstanding, and every other accepted call has been posted.
   */
  lemma {:induction false} PostedAreTheAcceptedCalls(c: Config, s: System, es: seq<Event>)
    requires Initial(c, s)
    ensures FramesOf(CallLog(c, s, es)) == AcceptedCalls(c, s, es)
    ensures Kept(CallLog(c, s, es)) == PostedOrInHand(Run(c, s, es))
    ensures InHandIsLast(Run(c, s, es), CallLog(c, s, es))
  {
    if es != [] {
      var before := es[..|es| - 1];
      PostedAreTheAcceptedCalls(c, s, before);
      hide Step, Kept, FramesOf, Cut, Logged, Accepted, PostedOrInHand, InHandIsLast, Initial, WellTyped;
      LogStep(c, Run(c, s, before), Last(es), CallLog(c, s, before), AcceptedCalls(c, s, before));
    }
  }

  // ---- progress ----

  /** Bus transactions still needed until the slot is empty and both sides are back outside their calls. */
  function Remaining(c: Config, s: System): nat
    requires Inv(c, s) && !Stuck(c, s)
  {
    match s.writer
    case WClaim(f) => 2 * |f| + 5
    case WFill(f, off) => 2 * |f| - off + 4
    case WIdle =>
      if s.slot.meta.state == EMPTY then 0
      else match s.reader
        case RIdle => |Last(s.posted)| + 3
        case RCopy(m, buf) => m.frameLen - |buf| + 1
        case _ => 1
  }

  function Towards(s: System): Event {
    if !s.writer.WIdle? then WriterTx else if s.reader.RIdle? then Poll else ReaderTx
  }

  lemma Advances(c: Config, s: System)
    requires Inv(c, s) && !Stuck(c, s) && Remaining(c, s) > 0
    ensures Inv(c, Step(c, s, Towards(s))) && !Stuck(c, Step(c, s, Towards(s)))
    ensures Remaining(c, Step(c, s, Towards(s))) < Remaining(c, s)
  {
    StepInv(c, s, Towards(s));
  }

  /** Unless the slot is stuck, the two sides' own transactions empty it. */
  lemma {:induction false} Drains(c: Config, s: System) returns (es: seq<Event>)
    requires Inv(c, s) && !Stuck(c, s)
    ensures forall e :: e in es ==> e == WriterTx || e == Poll || e == ReaderTx
    ensures var r := Run(c, s, es);
      && Inv(c, r) && r.writer == WIdle && r.reader == RIdle && r.slot.meta.state == EMPTY
      && |r.fates| == |r.posted| && s.posted <= r.posted
    decreases Remaining(c, s)
  {
    if Remaining(c, s) == 0 {
      es := [];
    } else {
      Advances(c, s);
      FatesGrow(c, s, Towards(s));
      var rest := Drains(c, Step(c, s, Towards(s)));
      es := [Towards(s)] + rest;
      RunCons(c, s, Towards(s), rest);
    }
  }

  lemma {:induction false} RunAppend(c: Config, s: System, a: seq<Event>, b: seq<Event>)
    requires WellTyped(c, s)
    ensures Run(c, s, a + b) == Run(c, Run(c, s, a), b)
  {
    if b == [] {
      assert a + b == a;
    } else {
      assert (a + b)[..|a + b| - 1] == a + b[..|b| - 1];
      RunAppend(c, s, a, b[..|b| - 1]);
      hide Step;
    }
  }

  lemma RunCons(c: Config, s: System, e: Event, es: seq<Event>)
    requires WellTyped(c, s)
    ensures Run(c, s, [e] + es) == Run(c, Step(c, s, e), es)
  {
    assert [e][..0] == [];
    RunAppend(c, s, [e], es);
  }

  /** Nothing is posted or read any more, and the slot stays as it is. */
  predicate Frozen(s: System, r: System) {
    r.slot == s.slot && r.posted == s.posted && r.fates == s.fates
  }

  lemma StuckStays(c: Config, s: System, e: Event)
    requires Inv(c, s) && Stuck(c, s)
    ensures var s' := Step(c, s, e);
      && Inv(c, s') && Stuck(c, s') && s'.slot.meta.state != EMPTY && s'.fates == s.fates
      && (s.writer == WIdle ==> s'.writer == WIdle && Frozen(s, s'))
  {
    StepInv(c, s, e);
  }

  /**
   * A stuck slot stays stuck, whatever happens, further restarts included: it is never emptied and nothing is read
   * any more; once the writer is outside its call the slot does not change at all.
   */
  lemma {:induction false} StuckForever(c: Config, s: System, es: seq<Event>)
    requires Inv(c, s) && Stuck(c, s)
    ensures var r := Run(c, s, es);
      && Inv(c, r) && Stuck(c, r) && r.slot.meta.state != EMPTY && r.fates == s.fates
      && (s.writer == WIdle ==> r.writer == WIdle && Frozen(s, r))
  {
    if es != [] {
      StuckForever(c, s, es[..|es| - 1]);
      StuckStays(c, Run(c, s, es[..|es| - 1]), Last(es));
      hide Inv, Step, Stuck;
    }
  }

  /** The event restarts the writer under WRITING, or the grabber's reader over a frame. */
  predicate Jamming(c: Config, s: System, e: Event) {
    || (e == WriterRestart && s.slot.meta.state == WRITING)
    || (e == ReaderRestart && s.slot.meta.state != EMPTY && c.reader == ColorGrabber)
  }

  predicate Jams(c: Config, s: System, es: seq<Event>, i: nat)
    requires WellTyped(c, s)
  {
    i < |es| && Jamming(c, Run(c, s, es[..i]), es[i])
  }

  predicate Jammed(c: Config, s: System, es: seq<Event>)
    requires WellTyped(c, s)
  {
    exists i: nat :: i < |es| && Jams(c, s, es, i)
  }

  lemma JamsPrefix(c: Config, s: System, es: seq<Event>, i: nat)
    requires WellTyped(c, s) && es != []
    ensures var before := es[..|es| - 1];
      Jams(c, s, es, i) <==>
        if i == |es| - 1 then Jamming(c, Run(c, s, before), es[i]) else Jams(c, s, before, i)
  {
    hide Run, Jamming, WellTyped;
    if i < |es| {
      assert i < |es| - 1 ==> es[..|es| - 1][..i] == es[..i];
    }
  }

  lemma JammedGrows(c: Config, s: System, es: seq<Event>)
    requires WellTyped(c, s) && es != []
    ensures Jammed(c, s, es) <==>
      Jammed(c, s, es[..|es| - 1]) || Jamming(c, Run(c, s, es[..|es| - 1]), es[|es| - 1])
  {
    var before, last := es[..|es| - 1], |es| - 1;
    hide Run, Jamming, Jams, WellTyped;
    JamsPrefix(c, s, es, last);
    if i: nat :| i < |before| && Jams(c, s, before, i) {
      JamsPrefix(c, s, es, i);
    }
    if i: nat :| i < |es| && Jams(c, s, es, i) {
      JamsPrefix(c, s, es, i);
    }
  }

  lemma StuckByStep(c: Config, s: System, e: Event)
    requires Inv(c, s)
    ensures Stuck(c, Step(c, s, e)) <==> Stuck(c, s) || Jamming(c, s, e)
  {
  }

  /** The slot gets stuck exactly by such a restart. */
  lemma {:induction false} StuckIffJammed(c: Config, s: System, es: seq<Event>)
    requires Initial(c, s)
    ensures Stuck(c, Run(c, s, es)) <==> Jammed(c, s, es)
  {
    if es != [] {
      var before := es[..|es| - 1];
      RunInv(c, s, before);
      StuckIffJammed(c, s, before);
      hide Step, Inv, Initial, Stuck, Jamming, Jammed;
      StuckByStep(c, Run(c, s, before), Last(es));
      JammedGrows(c, s, es);
    }
  }

  /**
   * The slot can still be emptied exactly if no writer restart fell while it was WRITING and, with the grabber's
   * reader, no reader restart while it was not EMPTY.
   */
  lemma DrainsIffNeverJammed(c: Config, s: System, es: seq<Event>)
    requires Initial(c, s)
    ensures (exists more :: Run(c, Run(c, s, es), more).slot.meta.state == EMPTY) <==> !Jammed(c, s, es)
  {
    var r := Run(c, s, es);
    RunInv(c, s, es);
    StuckIffJammed(c, s, es);
    hide Run, Step, Initial, Jammed;
    if Stuck(c, r) {
      forall more ensures Run(c, r, more).slot.meta.state != EMPTY {
        StuckForever(c, r, more);
      }
    } else {
      var more := Drains(c, r);
    }
  }

  /** It does happen: a call cut off after its first transaction leaves the slot WRITING. */
  lemma RestartCanAbandon(c: Config, s: System, f: bytes)
    requires Initial(c, s) && |f| <= c.slotSize
    ensures Abandoned(Run(c, s, [Post(f), WriterTx, WriterRestart]))
  {
    var claimed := Step(c, s, Post(f));
    var filling := Step(c, claimed, WriterTx);
    RunCons(c, s, Post(f), [WriterTx, WriterRestart]);
    RunCons(c, claimed, WriterTx, [WriterRestart]);
    RunCons(c, filling, WriterRestart, []);
    assert [Post(f)] + [WriterTx, WriterRestart] == [Post(f), WriterTx, WriterRestart];
    assert [WriterTx] + [WriterRestart] == [WriterTx, WriterRestart];
    assert [WriterRestart] + [] == [WriterRestart];
  }

  /**
   * The grabber's reader never skips a frame of usable length, restarts or not: it hands on the legal frames posted,
   * in order, each once, up to the one it restarted over, and stops there.
   */
  lemma GrabberSkipsNothing(c: Config, s: System, es: seq<Event>)
    requires Initial(c, s) && c.reader == ColorGrabber
    ensures var r := Run(c, s, es);
      |r.fates| <= |r.posted| && Delivered(r.fates) == LegalFrames(c, r.posted[..|r.fates|])
  {
    var r := Run(c, s, es);
    RunInv(c, s, es);
    NothingMissed(c, s, es);
    DeliveredIsLegal(c, r.posted[..|r.fates|], r.fates);
  }

  lemma {:induction false} NothingMissed(c: Config, s: System, es: seq<Event>)
    requires Initial(c, s) && c.reader == ColorGrabber
    ensures var r := Run(c, s, es); |r.missed| == |r.fates| && forall k :: 0 <= k < |r.missed| ==> !r.missed[k]
  {
    if es != [] {
      var q := Run(c, s, es[..|es| - 1]);
      NothingMissed(c, s, es[..|es| - 1]);
      RunInv(c, s, es[..|es| - 1]);
      MissedByStep(c, q, Last(es));
      if Stalled(c, q) {
        StuckStays(c, q, Last(es));
      }
      hide Step, Initial, Inv;
    }
  }

  /** And it does stop: a frame written out before the grabber starts is never read, and no other ever posted. */
  lemma StartCanStall(c: Config, s: System, f: bytes) returns (es: seq<Event>)
    requires Initial(c, s) && c.reader == ColorGrabber && |f| <= c.slotSize
    ensures forall e :: e in es ==> e == Post(f) || e == WriterTx
    ensures Run(c, s, es).posted == [f] && Run(c, s, es).slot.meta.state == READY
    ensures forall more :: Frozen(Run(c, s, es), Run(c, Step(c, Run(c, s, es), ReaderRestart), more))
  {
    es := UninterruptedWrite(c, s, f);
    var r := Run(c, s, es);
    assert s.posted + [f] == [f];
    RunInv(c, s, es);
    StepInv(c, r, ReaderRestart);
    forall more ensures Frozen(r, Run(c, Step(c, r, ReaderRestart), more)) {
      StuckForever(c, Step(c, r, ReaderRestart), more);
    }
  }

  /** What the grabber's reader does not compare is true of every frame it can find. */
  lemma ReadyFitsTheSlot(c: Config, s: System)
    requires Inv(c, s) && s.slot.meta.state == READY
    ensures s.slot.meta.frameLen <= c.slotSize
  {
  }

  // ---- calls that are not interrupted ----

  /** One more transaction of a write leaves the same bytes to be seen at its end. */
  lemma FillStep(c: Config, s: System)
    requires WellTyped(c, s) && s.writer.WFill? && s.slot.data[..s.writer.off] == s.writer.frame[..s.writer.off]
    requires s.writer.off < |s.writer.frame|
    ensures var f, next := s.writer.frame, Step(c, s, WriterTx);
      && next.writer == WFill(f, s.writer.off + Min(WRITE_CHUNK, |f| - s.writer.off))
      && next == s.(slot := s.slot.(data := next.slot.data), writer := next.writer)
      && next.slot.data[..next.writer.off] == f[..next.writer.off]
      && Splice(next.slot.data, 0, f) == Splice(s.slot.data, 0, f)
  {
    hide XorAll;
    var f, off := s.writer.frame, s.writer.off;
    SpliceContinues(s.slot.data, f, off, Min(WRITE_CHUNK, |f| - off));
  }

  lemma LastFillStep(c: Config, s: System)
    requires WellTyped(c, s) && s.writer.WFill? && s.slot.data[..s.writer.off] == s.writer.frame[..s.writer.off]
    requires s.writer.off == |s.writer.frame|
    ensures var f := s.writer.frame;
      Step(c, s, WriterTx) == s.(slot := Slot(Announce(s, READY, f), Splice(s.slot.data, 0, f)), writer := WIdle,
                                 posted := s.posted + [f])
  {
    hide XorAll;
    var f := s.writer.frame;
    assert f[..|f|] == f;
    assert Splice(s.slot.data, 0, f) == s.slot.data;
  }

  lemma {:induction false} UninterruptedFill(c: Config, s: System) returns (es: seq<Event>)
    requires WellTyped(c, s) && s.writer.WFill? && s.slot.data[..s.writer.off] == s.writer.frame[..s.writer.off]
    ensures forall e :: e in es ==> e == WriterTx
    ensures var f := s.writer.frame;
      Run(c, s, es) == s.(slot := Slot(Announce(s, READY, f), Splice(s.slot.data, 0, f)), writer := WIdle,
                          posted := s.posted + [f])
    decreases |s.writer.frame| - s.writer.off
  {
    var next := Step(c, s, WriterTx);
    hide Step, XorAll, Splice;
    if s.writer.off < |s.writer.frame| {
      FillStep(c, s);
      es := UninterruptedFill(c, next);
    } else {
      LastFillStep(c, s);
      es := [];
      assert next == Run(c, next, es);
    }
    RunCons(c, s, WriterTx, es);
    es := [WriterTx] + es;
  }

  /** Left alone, a call of `writeHostSlot` on an empty slot ends with the frame READY under the next generation. */
  lemma UninterruptedWrite(c: Config, s: System, f: bytes) returns (es: seq<Event>)
    requires WellTyped(c, s) && s.writer == WIdle && s.slot.meta.state == EMPTY && |f| <= c.slotSize
    ensures forall e :: e in es ==> e == Post(f) || e == WriterTx
    ensures var g := NextGen(s.hostGen);
      Run(c, s, es) == s.(slot := Slot(Meta(READY, g, |f|, XorAll(f)), Splice(s.slot.data, 0, f)), hostGen := g,
                          posted := s.posted + [f])
  {
    var claimed := Step(c, s, Post(f));
    es := UninterruptedFill(c, Step(c, claimed, WriterTx));
    RunCons(c, claimed, WriterTx, es);
    RunCons(c, s, Post(f), [WriterTx] + es);
    es := [Post(f)] + ([WriterTx] + es);
  }

  /** What a call of `readDevSlot` returns: the frame length or a code that is not positive, and the bytes copied. */
  datatype ReadResult = ReadResult(code: int, buf: bytes) {
    function AsFate(): Fate {
      if code > 0 then Returned(buf) else if buf == [] then Skipped else Corrupt
    }
  }

  /** The answer to a read that finds slot contents `s` and last took generation `devGen`. */
  function ReadOutcome(c: Config, s: Slot, devGen: nat): ReadResult
    requires |s.data| == c.slotSize
  {
    var len := s.meta.frameLen;
    if s.meta.state != READY || s.meta.generation == devGen then ReadResult(0, [])
    else if len < c.reader.MinFrame() || len > c.bufSize || len > c.slotSize then ReadResult(0, [])
    else
      var damaged := if c.reader.LlmControl? then -1 else 0;
      ReadResult(if XorAll(s.data[..len]) == s.meta.frameXor then len else damaged, s.data[..len])
  }

  function Emptied(s: Slot): Slot {
    s.(meta := Meta(EMPTY, s.meta.generation, 0, 0))
  }

  lemma {:induction false} UninterruptedCopy(c: Config, s: System) returns (es: seq<Event>)
    requires WellTyped(c, s) && s.reader.RCopy? && s.reader.meta == s.slot.meta
    requires s.reader.buf == s.slot.data[..|s.reader.buf|]
    ensures forall e :: e in es ==> e == ReaderTx
    ensures var m, buf := s.slot.meta, s.slot.data[..s.slot.meta.frameLen];
      Run(c, s, es) ==
        Acknowledged(s.(slot := Emptied(s.slot)), m, if XorAll(buf) == m.frameXor then Returned(buf) else Corrupt)
    decreases s.reader.meta.frameLen - |s.reader.buf|
  {
    var m, buf := s.reader.meta, s.reader.buf;
    var next := Step(c, s, ReaderTx);
    if |buf| < m.frameLen {
      assert next.reader.buf == s.slot.data[..|next.reader.buf|];
      es := UninterruptedCopy(c, next);
    } else {
      es := [];
      assert next == Run(c, next, es);
    }
    RunCons(c, s, ReaderTx, es);
    es := [ReaderTx] + es;
  }

  /**
   * Left alone, a call of `readDevSlot` on a READY slot empties it and answers as ReadOutcome says; the grabber's
   * does so if the generation is new.
   */
  lemma UninterruptedRead(c: Config, s: System) returns (es: seq<Event>)
    requires WellTyped(c, s) && s.reader == RIdle && s.slot.meta.state == READY
    requires c.reader == LlmControl || s.slot.meta.generation != s.devGen
    ensures forall e :: e in es ==> e == Poll || e == ReaderTx
    ensures Run(c, s, es) ==
      Acknowledged(s.(slot := Emptied(s.slot)), s.slot.meta, ReadOutcome(c, s.slot, s.devGen).AsFate())
  {
    var polled := Step(c, s, Poll);
    if polled.reader.RCopy? {
      es := UninterruptedCopy(c, polled);
    } else {
      es := [ReaderTx];
      RunCons(c, polled, ReaderTx, []);
      assert [ReaderTx] + [] == [ReaderTx];
    }
    RunCons(c, s, Poll, es);
    es := [Poll] + es;
  }
}
