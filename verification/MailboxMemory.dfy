/**
 * The raw 4096 bytes behind the slots: header, two 8-byte metadata records, two data areas. The two directions
 * share this memory and the bus, and still each behaves as if it were alone.
 */
module MailboxMemory {
  import opened Bytes
  import opened Mailbox

  const HOST_SLOT_META_OFFSET: nat := 16
  const DEV_SLOT_META_OFFSET: nat := 24
  const META_SIZE: nat := 8
  const MAGIC: bytes := [0x57, 0x4C, 0x4D, 0x32]

  datatype Direction = ToDevice | ToHost {
    function Opposite(): Direction {
      if ToDevice? then ToHost else ToDevice
    }

    function MetaOff(): nat {
      if ToDevice? then HOST_SLOT_META_OFFSET else DEV_SLOT_META_OFFSET
    }

    function DataOff(slotSize: nat): nat {
      if ToDevice? then MAILBOX_HEADER_SIZE else MAILBOX_HEADER_SIZE + slotSize
    }
  }

  function StateCode(s: SlotState): byte {
    match s
    case EMPTY => 0
    case WRITING => 1
    case READY => 2
    case OTHER(code) => code
  }

  function StateOf(code: byte): SlotState {
    if code == 0 then EMPTY else if code == 1 then WRITING else if code == 2 then READY else OTHER(code)
  }

  predicate Storable(m: Meta) {
    m.generation < 0x1_0000 && m.frameLen < 0x1_0000 && !m.state.OTHER?
  }

  /** `writeSlotMeta`: state, zero, generation, length, XOR, zero. */
  function EncodeMeta(m: Meta): (raw: bytes)
    requires Storable(m)
    ensures |raw| == META_SIZE
  {
    [StateCode(m.state), 0, Hi(m.generation), Lo(m.generation), Hi(m.frameLen), Lo(m.frameLen), m.frameXor, 0]
  }

  /** `readSlotMeta`: the reserved bytes are ignored. */
  function DecodeMeta(raw: bytes): (m: Meta)
    requires |raw| == META_SIZE
    ensures m.generation < 0x1_0000 && m.frameLen < 0x1_0000
  {
    Meta(StateOf(raw[0]), Join(raw[2], raw[3]), Join(raw[4], raw[5]), raw[6])
  }

  lemma MetaRoundTrip(m: Meta)
    requires Storable(m)
    ensures DecodeMeta(EncodeMeta(m)) == m
  {
    JoinSplit(m.generation);
    JoinSplit(m.frameLen);
  }

  predicate IsMailbox(c: Config, mem: bytes) {
    c.Valid() && |mem| == 4096
  }

  /** The slot of one direction as its peers see it. */
  function View(c: Config, d: Direction, mem: bytes): (s: Slot)
    requires IsMailbox(c, mem)
    ensures |s.data| == c.slotSize && s.meta.generation < 0x1_0000 && s.meta.frameLen < 0x1_0000
  {
    var at := d.DataOff(c.slotSize);
    Slot(DecodeMeta(mem[d.MetaOff()..d.MetaOff() + META_SIZE]), mem[at..at + c.slotSize])
  }

  /** A write on this direction's slot fits the slot. */
  predicate Fits(c: Config, w: Write) {
    && (w.StoreMeta? ==> Storable(w.meta))
    && (w.StoreData? ==> w.at + |w.chunk| <= c.slotSize)
  }

  function Store(c: Config, d: Direction, mem: bytes, w: Write): (r: bytes)
    requires IsMailbox(c, mem) && Fits(c, w)
    ensures IsMailbox(c, r)
  {
    match w
    case Nothing => mem
    case StoreMeta(m) => Splice(mem, d.MetaOff(), EncodeMeta(m))
    case StoreData(at, chunk) => Splice(mem, d.DataOff(c.slotSize) + at, chunk)
  }

  lemma SameMeta(c: Config, d: Direction, a: bytes, b: bytes)
    requires IsMailbox(c, a) && IsMailbox(c, b)
    requires forall i :: d.MetaOff() <= i < d.MetaOff() + META_SIZE ==> a[i] == b[i]
    ensures View(c, d, a).meta == View(c, d, b).meta
  {
    hide DecodeMeta;
    SameSlice(a, b, d.MetaOff(), META_SIZE);
  }

  lemma SameData(c: Config, d: Direction, a: bytes, b: bytes)
    requires IsMailbox(c, a) && IsMailbox(c, b)
    requires var at := d.DataOff(c.slotSize); forall i :: at <= i < at + c.slotSize ==> a[i] == b[i]
    ensures View(c, d, a).data == View(c, d, b).data
  {
    hide DecodeMeta;
    SameSlice(a, b, d.DataOff(c.slotSize), c.slotSize);
  }

  lemma StoreMetaRefines(c: Config, d: Direction, mem: bytes, m: Meta)
    requires IsMailbox(c, mem) && Storable(m)
    ensures var r := Store(c, d, mem, StoreMeta(m));
      View(c, d, r) == View(c, d, mem).(meta := m) && View(c, d.Opposite(), r) == View(c, d.Opposite(), mem)
  {
    var r := Splice(mem, d.MetaOff(), EncodeMeta(m));
    assert r[d.MetaOff()..d.MetaOff() + META_SIZE] == EncodeMeta(m);
    MetaRoundTrip(m);
    SameData(c, d, r, mem);
    SameMeta(c, d.Opposite(), r, mem);
    SameData(c, d.Opposite(), r, mem);
  }

  lemma StoreDataRefines(c: Config, d: Direction, mem: bytes, at: nat, chunk: bytes)
    requires IsMailbox(c, mem) && at + |chunk| <= c.slotSize
    ensures var r := Store(c, d, mem, StoreData(at, chunk));
      && View(c, d, r) == View(c, d, mem).(data := Splice(View(c, d, mem).data, at, chunk))
      && View(c, d.Opposite(), r) == View(c, d.Opposite(), mem)
  {
    hide DecodeMeta, Splice;
    var base := d.DataOff(c.slotSize);
    var r := Splice(mem, base + at, chunk);
    SameMeta(c, d, r, mem);
    SameMeta(c, d.Opposite(), r, mem);
    SameData(c, d.Opposite(), r, mem);
    SpliceInside(mem, base, c.slotSize, at, chunk);
  }

  /** Storing bytes does to the slot what `Apply` says, and nothing to the opposite slot or the header. */
  lemma StoreRefinesApply(c: Config, d: Direction, mem: bytes, w: Write)
    requires IsMailbox(c, mem) && Fits(c, w)
    ensures var r := Store(c, d, mem, w);
      && View(c, d, r) == Apply(View(c, d, mem), w)
      && View(c, d.Opposite(), r) == View(c, d.Opposite(), mem)
      && r[..16] == mem[..16]
  {
    match w
    case Nothing =>
    case StoreMeta(m) => StoreMetaRefines(c, d, mem, m);
    case StoreData(at, chunk) => StoreDataRefines(c, d, mem, at, chunk);
  }

  // ---- both directions at once ----

  /** The registers of one direction: everything of a `System` but the slot, which lives in the shared memory. */
  datatype Duplex = Duplex(mem: bytes, up: System, down: System) {
    function Side(c: Config, d: Direction): (s: System)
      requires IsMailbox(c, mem)
      ensures s.slot == View(c, d, mem)
    {
      (if d.ToDevice? then up else down).(slot := View(c, d, mem))
    }
  }

  predicate DuplexOk(c: Config, x: Duplex) {
    IsMailbox(c, x.mem) && WellTyped(c, x.Side(c, ToDevice)) && WellTyped(c, x.Side(c, ToHost))
  }

  /** An event of direction `d`, carried out on the shared bytes. */
  function DuplexStep(c: Config, x: Duplex, d: Direction, e: Event): (x': Duplex)
    requires DuplexOk(c, x)
    ensures IsMailbox(c, x'.mem)
  {
    var side := x.Side(c, d);
    var mem', side' := Store(c, d, x.mem, BusWrite(c, side, e)), Step(c, side, e);
    if d.ToDevice? then Duplex(mem', side', x.down) else Duplex(mem', x.up, side')
  }

  /** On the bytes, an event moves its own direction exactly as `Step` does and leaves the other one alone. */
  lemma DuplexStepRefines(c: Config, x: Duplex, d: Direction, e: Event)
    requires DuplexOk(c, x)
    ensures var x' := DuplexStep(c, x, d, e);
      && DuplexOk(c, x')
      && x'.Side(c, d) == Step(c, x.Side(c, d), e)
      && x'.Side(c, d.Opposite()) == x.Side(c, d.Opposite())
      && x'.mem[..16] == x.mem[..16]
  {
    hide Store, View, Apply, BusWrite, Step, WellTyped;
    var x' := DuplexStep(c, x, d, e);
    StoreRefinesApply(c, d, x.mem, BusWrite(c, x.Side(c, d), e));
    StepAppliesTheWrite(c, x.Side(c, d), e);
    assert x'.Side(c, d) == Step(c, x.Side(c, d), e);
    assert x'.Side(c, d.Opposite()) == x.Side(c, d.Opposite());
  }

  lemma StepAppliesTheWrite(c: Config, s: System, e: Event)
    requires WellTyped(c, s)
    ensures Step(c, s, e).slot == Apply(s.slot, BusWrite(c, s, e))
  {
  }

  function DuplexRun(c: Config, x: Duplex, es: seq<(Direction, Event)>): (x': Duplex)
    requires DuplexOk(c, x)
    ensures DuplexOk(c, x')
  {
    if es == [] then x else
      var before := DuplexRun(c, x, es[..|es| - 1]);
      DuplexStepRefines(c, before, Last(es).0, Last(es).1);
      DuplexStep(c, before, Last(es).0, Last(es).1)
  }

  function EventsOf(d: Direction, es: seq<(Direction, Event)>): seq<Event> {
    if es == [] then [] else EventsOf(d, es[..|es| - 1]) + if Last(es).0 == d then [Last(es).1] else []
  }

  /** Full duplex: however the two directions interleave on the shared bytes, each runs as if it were alone. */
  lemma {:induction false} DirectionsDoNotInterfere(c: Config, x: Duplex, es: seq<(Direction, Event)>, d: Direction)
    requires DuplexOk(c, x)
    ensures DuplexRun(c, x, es).Side(c, d) == Run(c, x.Side(c, d), EventsOf(d, es))
  {
    if es != [] {
      var before, e := es[..|es| - 1], Last(es);
      DirectionsDoNotInterfere(c, x, before, d);
      DuplexStepRefines(c, DuplexRun(c, x, before), e.0, e.1);
      if e.0 == d {
        var own := EventsOf(d, es);
        assert own[..|own| - 1] == EventsOf(d, before);
      } else {
        assert d == e.0.Opposite();
        assert EventsOf(d, es) == EventsOf(d, before);
      }
    }
  }

  /**
   * On the raw mailbox: in either direction, with both directions active and the writer restarting at will, the
   * frames handed over are the legal posted frames, in order, each once, byte for byte.
   */
  lemma DuplexDeliversExactlyOnce(c: Config, x: Duplex, es: seq<(Direction, Event)>, d: Direction)
    requires DuplexOk(c, x) && Initial(c, x.Side(c, d)) && (d, ReaderRestart) !in es
    ensures var r := DuplexRun(c, x, es).Side(c, d);
      && |r.fates| <= |r.posted|
      && Delivered(r.fates) == LegalFrames(c, r.posted[..|r.fates|])
      && (r.slot.meta.state == EMPTY ==> Delivered(r.fates) == LegalFrames(c, r.posted))
  {
    DirectionsDoNotInterfere(c, x, es, d);
    NoRestartOf(d, es);
    InOrderExactlyOnce(c, x.Side(c, d), EventsOf(d, es));
  }

  lemma {:induction false} NoRestartOf(d: Direction, es: seq<(Direction, Event)>)
    requires (d, ReaderRestart) !in es
    ensures ReaderRestart !in EventsOf(d, es)
  {
    if es != [] {
      NoRestartOf(d, es[..|es| - 1]);
      assert Last(es) in es;
    }
  }
}
