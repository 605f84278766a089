/**
 * The FF FF serial frame format: what `buf_write` emits and the byte-by-byte automaton that `recv_task` (Python)
 * and `CommProtocol_t::parsing` (C++) both run, differing only in the largest length byte they accept.
 */
module SerialFrames {
  import opened Bytes

  const HEADER: byte := 0xFF

  datatype Packet = Packet(id: byte, cmd: byte, data: bytes) {
    /** `length = 2 + len(data)` must itself be a byte. */
    predicate Sendable() {
      |data| <= 253
    }
  }

  function Sum(s: bytes): nat {
    if s == [] then 0 else Sum(s[..|s| - 1]) + s[|s| - 1]
  }

  /** `~sum & 0xFF` */
  function Checksum(s: bytes): byte {
    255 - Sum(s) % 256
  }

  /** The bytes between header and checksum. */
  function Content(p: Packet): (s: bytes)
    requires p.Sendable()
    ensures |s| == 3 + |p.data|
  {
    [p.id, 2 + |p.data|, p.cmd] + p.data
  }

  function Encode(p: Packet): bytes
    requires p.Sendable()
  {
    [HEADER, HEADER] + Content(p) + [Checksum(Content(p))]
  }

  /** Where the parser stands. `frame` holds id, length, command and the data so far. */
  datatype Parser =
    | Hunt
    | Sync
    | Id
    | Length(id: byte)
    | Command(id: byte, length: byte)
    | Data(frame: bytes)
    | Check(frame: bytes)
  {
    /** What holds in every state the automaton reaches from Hunt. */
    predicate Ok(limit: nat) {
      match this
      case Command(_, n) => 2 <= n <= limit
      case Data(f) => 3 <= |f| <= f[1] <= limit
      case Check(f) => 3 <= |f| && |f| - 1 == f[1] <= limit
      case _ => true
    }
  }

  /** The parser after some bytes, and the packets it dispatched. */
  datatype Outcome = Outcome(parser: Parser, packets: seq<Packet>)

  function Step(limit: nat, p: Parser, b: byte): (o: Outcome)
    requires p.Ok(limit) && limit >= 2
    ensures o.parser.Ok(limit)
    ensures forall q :: q in o.packets ==> 2 + |q.data| <= limit
  {
    match p
    case Hunt => Outcome(if b == HEADER then Sync else Hunt, [])
    case Sync => Outcome(if b == HEADER then Id else Hunt, [])
    case Id => Outcome(Length(b), [])
    case Length(id) => Outcome(if b < 2 || b > limit then Hunt else Command(id, b), [])
    case Command(id, n) => Outcome(if n > 2 then Data([id, n, b]) else Check([id, n, b]), [])
    case Data(f) => Outcome(if |f| >= f[1] then Check(f + [b]) else Data(f + [b]), [])
    case Check(f) => Outcome(Hunt, if Checksum(f) == b then [Packet(f[0], f[2], f[3..])] else [])
  }

  function Feed(limit: nat, p: Parser, s: bytes): (o: Outcome)
    requires p.Ok(limit) && limit >= 2
    ensures o.parser.Ok(limit)
    ensures forall q :: q in o.packets ==> 2 + |q.data| <= limit
    decreases |s|
  {
    if s == [] then Outcome(p, []) else
      var first := Step(limit, p, s[0]);
      var rest := Feed(limit, first.parser, s[1..]);
      Outcome(rest.parser, first.packets + rest.packets)
  }

  lemma {:induction false} FeedAppend(limit: nat, p: Parser, a: bytes, b: bytes)
    requires p.Ok(limit) && limit >= 2
    ensures var oa := Feed(limit, p, a);
      var ob := Feed(limit, oa.parser, b);
      Feed(limit, p, a + b) == Outcome(ob.parser, oa.packets + ob.packets)
    decreases |a|
  {
    if a == [] {
      assert a + b == b;
    } else {
      assert (a + b)[1..] == a[1..] + b;
      FeedAppend(limit, Step(limit, p, a[0]).parser, a[1..], b);
    }
  }

  lemma FeedOne(limit: nat, p: Parser, b: byte)
    requires p.Ok(limit) && limit >= 2
    ensures Feed(limit, p, [b]) == Step(limit, p, b)
  {
    assert [b][1..] == [];
    assert Feed(limit, Step(limit, p, b).parser, [b][1..]) == Outcome(Step(limit, p, b).parser, []);
  }

  function Flatten(chunks: seq<bytes>): bytes {
    if chunks == [] then [] else chunks[0] + Flatten(chunks[1..])
  }

  /** Reading the stream chunk by chunk. */
  function FeedChunks(limit: nat, p: Parser, chunks: seq<bytes>): (o: Outcome)
    requires p.Ok(limit) && limit >= 2
    ensures o.parser.Ok(limit)
    decreases |chunks|
  {
    if chunks == [] then Outcome(p, []) else
      var first := Feed(limit, p, chunks[0]);
      var rest := FeedChunks(limit, first.parser, chunks[1..]);
      Outcome(rest.parser, first.packets + rest.packets)
  }

  /** How the stream is cut into reads makes no difference. */
  lemma {:induction false} ChunksDoNotMatter(limit: nat, p: Parser, chunks: seq<bytes>)
    requires p.Ok(limit) && limit >= 2
    ensures FeedChunks(limit, p, chunks) == Feed(limit, p, Flatten(chunks))
    decreases |chunks|
  {
    if chunks != [] {
      ChunksDoNotMatter(limit, Feed(limit, p, chunks[0]).parser, chunks[1..]);
      FeedAppend(limit, p, chunks[0], Flatten(chunks[1..]));
    }
  }

  // ---- a frame from the id on ----

  /** A parser collecting data takes exactly the announced number of bytes. */
  lemma {:induction false} CollectsData(limit: nat, f: bytes, s: bytes)
    requires Data(f).Ok(limit) && limit >= 2 && |f| + |s| - 1 == f[1]
    ensures Feed(limit, Data(f), s) == Outcome(Check(f + s), [])
    decreases |s|
  {
    assert f + [s[0]] + s[1..] == f + s;
    if |s| == 1 {
      assert s[1..] == [] && Feed(limit, Check(f + s), s[1..]) == Outcome(Check(f + s), []);
    } else {
      CollectsData(limit, f + [s[0]], s[1..]);
    }
  }

  /** The five bytes that open a frame, one step each. */
  lemma HeaderSteps(limit: nat, h: bytes)
    requires |h| == 5 && h[0] == h[1] == HEADER && 2 <= h[3] <= limit
    ensures Feed(limit, Hunt, h) == Outcome(if h[3] > 2 then Data(h[2..]) else Check(h[2..]), [])
  {
    FeedOne(limit, Command(h[2], h[3]), h[4]);
    assert h[1..][1..] == h[2..] && h[2..][1..][1..] == [h[4]];
    assert Feed(limit, Id, h[2..]) == Feed(limit, Command(h[2], h[3]), [h[4]]);
    assert Feed(limit, Hunt, h) == Feed(limit, Sync, h[1..]) == Feed(limit, Id, h[1..][1..]);
    assert [h[2], h[3], h[4]] == h[2..];
  }

  /** After the header, id, length, command and data are collected whatever their values, FF included. */
  lemma CollectsContent(limit: nat, id: byte, cmd: byte, data: bytes)
    requires 2 + |data| <= limit <= 255
    ensures var f := [id, 2 + |data|, cmd] + data;
      Feed(limit, Hunt, [HEADER, HEADER] + f) == Outcome(Check(f), [])
  {
    var n := 2 + |data|;
    var head := [HEADER, HEADER, id, n, cmd];
    HeaderSteps(limit, head);
    FeedAppend(limit, Hunt, head, data);
    assert head + data == [HEADER, HEADER] + ([id, n, cmd] + data);
    if data != [] {
      CollectsData(limit, [id, n, cmd], data);
    } else {
      assert [id, n, cmd] + data == [id, n, cmd];
    }
  }

  /** The frame `content` followed by the check byte `sum`. */
  lemma FrameEnds(limit: nat, id: byte, cmd: byte, data: bytes, sum: byte)
    requires 2 + |data| <= limit <= 255
    ensures var f := [id, 2 + |data|, cmd] + data;
      Feed(limit, Hunt, [HEADER, HEADER] + f + [sum]) ==
        Outcome(Hunt, if Checksum(f) == sum then [Packet(id, cmd, data)] else [])
  {
    var f := [id, 2 + |data|, cmd] + data;
    CollectsContent(limit, id, cmd, data);
    FeedAppend(limit, Hunt, [HEADER, HEADER] + f, [sum]);
    FeedOne(limit, Check(f), sum);
    assert f[3..] == data;
  }

  /** A frame whose length the parser accepts is dispatched, once. */
  lemma PacketArrives(limit: nat, p: Packet)
    requires 2 + |p.data| <= limit <= 255
    ensures Feed(limit, Hunt, Encode(p)) == Outcome(Hunt, [p])
  {
    FrameEnds(limit, p.id, p.cmd, p.data, Checksum(Content(p)));
  }

  /** A parser gets a packet through exactly when its length byte is within the limit. */
  lemma ArrivesIffWithinLimit(limit: nat, p: Packet)
    requires p.Sendable() && 2 <= limit <= 255
    ensures Feed(limit, Hunt, Encode(p)).packets == [p] <==> 2 + |p.data| <= limit
  {
    if 2 + |p.data| <= limit {
      PacketArrives(limit, p);
    } else {
      assert p !in Feed(limit, Hunt, Encode(p)).packets;
    }
  }

  // ---- damage ----

  /** One byte of a frame other than header and length, replaced by something else. */
  datatype Damage = DamagedId(b: byte) | DamagedCmd(b: byte) | DamagedData(at: nat, b: byte) | DamagedSum(b: byte) {
    predicate Hits(p: Packet)
      requires p.Sendable()
    {
      match this
      case DamagedId(b) => b != p.id
      case DamagedCmd(b) => b != p.cmd
      case DamagedData(at, b) => at < |p.data| && b != p.data[at]
      case DamagedSum(b) => b != Checksum(Content(p))
    }
  }

  /** The damaged packet's fields and the check byte that follows them on the wire. */
  function DamagedPacket(p: Packet, d: Damage): Packet
    requires p.Sendable() && d.Hits(p)
  {
    match d
    case DamagedId(b) => p.(id := b)
    case DamagedCmd(b) => p.(cmd := b)
    case DamagedData(at, b) => p.(data := p.data[at := b])
    case DamagedSum(_) => p
  }

  function DamagedBytes(p: Packet, d: Damage): bytes
    requires p.Sendable() && d.Hits(p)
  {
    [HEADER, HEADER] + Content(DamagedPacket(p, d)) +
      [if d.DamagedSum? then d.b else Checksum(Content(p))]
  }

  lemma {:induction false} SumUpdate(s: bytes, i: nat, b: byte)
    requires i < |s|
    ensures Sum(s[i := b]) == Sum(s) - s[i] + b
  {
    var t := s[i := b];
    if i == |s| - 1 {
      assert t[..|s| - 1] == s[..|s| - 1];
    } else {
      assert t[..|s| - 1] == s[..|s| - 1][i := b];
      SumUpdate(s[..|s| - 1], i, b);
    }
  }

  lemma ChecksumNotices(s: bytes, i: nat, b: byte)
    requires i < |s| && b != s[i]
    ensures Checksum(s[i := b]) != Checksum(s)
  {
    SumUpdate(s, i, b);
  }

  /** The check byte no longer fits the frame. */
  lemma DamageShows(p: Packet, d: Damage)
    requires p.Sendable() && d.Hits(p)
    ensures |DamagedPacket(p, d).data| == |p.data|
    ensures Checksum(Content(DamagedPacket(p, d))) != if d.DamagedSum? then d.b else Checksum(Content(p))
  {
    var q, c := DamagedPacket(p, d), Content(p);
    hide Checksum;
    match d {
      case DamagedId(b) =>
        assert Content(q) == c[0 := b];
        ChecksumNotices(c, 0, b);
      case DamagedCmd(b) =>
        assert Content(q) == c[2 := b];
        ChecksumNotices(c, 2, b);
      case DamagedData(at, b) =>
        assert Content(q) == c[3 + at := b];
        ChecksumNotices(c, 3 + at, b);
      case DamagedSum(b) =>
    }
  }

  /** A frame with one damaged byte is not dispatched, and the parser is ready for the next frame at its end. */
  lemma DamageIsNoticed(limit: nat, p: Packet, d: Damage)
    requires 2 + |p.data| <= limit <= 255 && d.Hits(p)
    ensures Feed(limit, Hunt, DamagedBytes(p, d)) == Outcome(Hunt, [])
  {
    var q := DamagedPacket(p, d);
    hide Checksum, Feed, DamagedPacket;
    DamageShows(p, d);
    FrameEnds(limit, q.id, q.cmd, q.data, if d.DamagedSum? then d.b else Checksum(Content(p)));
  }

  /** What a serial line carries: frames, frames with one damaged byte, and noise without FF. */
  datatype Item = Frame(packet: Packet) | Damaged(packet: Packet, damage: Damage) | Noise(bytes: bytes) {
    predicate Ok(limit: nat) {
      match this
      case Frame(p) => 2 + |p.data| <= limit <= 255
      case Damaged(p, d) => 2 + |p.data| <= limit <= 255 && d.Hits(p)
      case Noise(s) => HEADER !in s
    }

    function Wire(): bytes
      requires Ok(255)
    {
      match this
      case Frame(p) => Encode(p)
      case Damaged(p, d) => DamagedBytes(p, d)
      case Noise(s) => s
    }
  }

  predicate StreamOk(limit: nat, items: seq<Item>) {
    limit <= 255 && forall i :: 0 <= i < |items| ==> items[i].Ok(limit)
  }

  function Wire(items: seq<Item>): bytes
    requires StreamOk(255, items)
  {
    if items == [] then [] else items[0].Wire() + Wire(items[1..])
  }

  /** The packets whose frames arrive undamaged, in order. */
  function Intact(items: seq<Item>): seq<Packet> {
    if items == [] then []
    else (if items[0].Frame? then [items[0].packet] else []) + Intact(items[1..])
  }

  lemma {:induction false} NoiseIsIgnored(limit: nat, s: bytes)
    requires HEADER !in s && limit >= 2
    ensures Feed(limit, Hunt, s) == Outcome(Hunt, [])
    decreases |s|
  {
    if s != [] {
      assert s[0] in s;
      NoiseIsIgnored(limit, s[1..]);
    }
  }

  lemma ItemArrives(limit: nat, it: Item)
    requires limit >= 2 && it.Ok(limit) && it.Ok(255)
    ensures Feed(limit, Hunt, it.Wire()) == Outcome(Hunt, if it.Frame? then [it.packet] else [])
  {
    match it
    case Frame(p) => PacketArrives(limit, p);
    case Damaged(p, d) => DamageIsNoticed(limit, p, d);
    case Noise(s) => NoiseIsIgnored(limit, s);
  }

  /** Exactly the undamaged packets are dispatched, each once, in order, and the parser ends where it began. */
  lemma {:induction false} StreamArrives(limit: nat, items: seq<Item>)
    requires limit >= 2 && StreamOk(limit, items) && StreamOk(255, items)
    ensures Feed(limit, Hunt, Wire(items)) == Outcome(Hunt, Intact(items))
    decreases |items|
  {
    if items != [] {
      ItemArrives(limit, items[0]);
      StreamArrives(limit, items[1..]);
      FeedAppend(limit, Hunt, items[0].Wire(), Wire(items[1..]));
    }
  }

  /** The same however the bytes are cut into reads. */
  lemma StreamArrivesInChunks(limit: nat, items: seq<Item>, chunks: seq<bytes>)
    requires limit >= 2 && StreamOk(limit, items) && StreamOk(255, items) && Flatten(chunks) == Wire(items)
    ensures FeedChunks(limit, Hunt, chunks) == Outcome(Hunt, Intact(items))
  {
    ChunksDoNotMatter(limit, Hunt, chunks);
    StreamArrives(limit, items);
  }

  // ---- recovery ----

  /** An upper bound on the FF-free bytes a parser needs before it hunts for a header again. */
  function Distance(limit: nat, p: Parser): nat
    requires p.Ok(limit) && limit >= 2
  {
    match p
    case Hunt => 0
    case Sync => 1
    case Id => limit + 2
    case Length(_) => limit + 1
    case Command(_, n) => n
    case Data(f) => 2 + f[1] - |f|
    case Check(_) => 1
  }

  lemma StepApproaches(limit: nat, p: Parser, b: byte)
    requires p.Ok(limit) && limit >= 2 && b != HEADER
    ensures Distance(limit, Step(limit, p, b).parser) <= if p == Hunt then 0 else Distance(limit, p) - 1
  {
  }

  /** From every reachable state, `limit + 2` bytes other than FF bring the parser back to hunting. */
  lemma {:induction false} Resynchronises(limit: nat, p: Parser, s: bytes)
    requires p.Ok(limit) && limit >= 2 && HEADER !in s && |s| >= Distance(limit, p)
    ensures Feed(limit, p, s).parser == Hunt
    ensures Distance(limit, p) <= limit + 2
    decreases |s|
  {
    if s != [] {
      assert s[0] in s;
      StepApproaches(limit, p, s[0]);
      Resynchronises(limit, Step(limit, p, s[0]).parser, s[1..]);
    }
  }

  /** One byte less is not enough: a parser that has seen a header can still be inside a frame. */
  lemma BoundIsAttained(limit: nat, id: byte, cmd: byte, data: bytes)
    requires 2 <= limit == 2 + |data| < 255 && HEADER !in [id, cmd] + data
    ensures var s := [id, limit, cmd] + data;
      && |s| == limit + 1 && HEADER !in s
      && Feed(limit, Hunt, [HEADER, HEADER]).parser == Id
      && Feed(limit, Id, s).parser.Check?
  {
    var s := [id, limit, cmd] + data;
    assert [HEADER, HEADER][1..] == [HEADER];
    FeedOne(limit, Sync, HEADER);
    CollectsContent(limit, id, cmd, data);
    FeedAppend(limit, Hunt, [HEADER, HEADER], s);
    forall b | b in s ensures b != HEADER {
      assert b == limit || b in [id, cmd] + data;
    }
  }

  /** After enough FF-free bytes the next frame gets through, whatever the parser was in the middle of. */
  lemma ReceivesAfterQuiet(limit: nat, p: Parser, quiet: bytes, q: Packet)
    requires p.Ok(limit) && 2 + |q.data| <= limit <= 255 && HEADER !in quiet && |quiet| >= limit + 2
    ensures var o := Feed(limit, p, quiet + Encode(q));
      o.parser == Hunt && o.packets == Feed(limit, p, quiet).packets + [q]
  {
    assert Distance(limit, p) <= limit + 2;
    Resynchronises(limit, p, quiet);
    PacketArrives(limit, q);
    FeedAppend(limit, p, quiet, Encode(q));
  }
}
