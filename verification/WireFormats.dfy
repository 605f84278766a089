/** The formats as they appear on the wire, byte by byte and in plain numbers. */
module WireFormats {
  import opened Common
  import opened Bytes
  import opened Bits
  import opened Mailbox
  import opened MailboxMemory
  import Codec = FrameCodec
  import SF = SerialFrames
  import Firmware

  function HighFirst(hi: int, lo: int): int {
    256 * hi + lo
  }

  // ---- the mailbox ----

  /** Where the metadata of a direction begins: byte 16 towards the device, 24 towards the host. */
  function MetaAt(d: Direction): nat {
    if d == ToDevice then 16 else 24
  }

  /** Where its data begins: behind the 32 bytes of header, the host's slot behind the device's. */
  function DataAt(c: Config, d: Direction): nat {
    if d == ToDevice then 32 else 32 + c.slotSize
  }

  /** A slot as its peers see it is read from these bytes, numbers high byte first. */
  lemma SlotIsReadFrom(c: Config, d: Direction, mem: bytes)
    requires IsMailbox(c, mem)
    ensures var s, at := View(c, d, mem), MetaAt(d);
      && (s.meta.state == EMPTY <==> mem[at] == 0) && (s.meta.state == WRITING <==> mem[at] == 1)
      && (s.meta.state == READY <==> mem[at] == 2)
      && s.meta.generation == HighFirst(mem[at + 2], mem[at + 3])
      && s.meta.frameLen == HighFirst(mem[at + 4], mem[at + 5])
      && s.meta.frameXor == mem[at + 6]
      && s.data == mem[DataAt(c, d)..DataAt(c, d) + c.slotSize]
  {
  }

  /** Metadata go to these bytes, and nothing else changes. */
  lemma MetaIsWrittenTo(c: Config, d: Direction, mem: bytes, m: Meta)
    requires IsMailbox(c, mem) && Storable(m)
    ensures var r, at := Store(c, d, mem, StoreMeta(m)), MetaAt(d);
      && r[at] == (match m.state case EMPTY => 0 case WRITING => 1 case READY => 2)
      && HighFirst(r[at + 2], r[at + 3]) == m.generation && HighFirst(r[at + 4], r[at + 5]) == m.frameLen
      && r[at + 6] == m.frameXor && r[at + 1] == r[at + 7] == 0
      && |r| == |mem| && forall i :: 0 <= i < |mem| && !(at <= i < at + 8) ==> r[i] == mem[i]
  {
  }

  /** Data go behind what was stored before, at most 30 bytes at a time. */
  lemma DataAreWrittenTo(c: Config, s: System, d: Direction, mem: bytes)
    requires IsMailbox(c, mem) && WellTyped(c, s) && s.writer.WFill? && s.writer.off < |s.writer.frame|
    ensures var w, f, at := BusWrite(c, s, WriterTx), s.writer.frame, DataAt(c, d) + s.writer.off;
      && w.StoreData? && Fits(c, w)
      && var n, r := if |f| - s.writer.off < 30 then |f| - s.writer.off else 30, Store(c, d, mem, w);
        && r[at..at + n] == f[s.writer.off..s.writer.off + n]
        && |r| == |mem| && forall i :: 0 <= i < |mem| && !(at <= i < at + n) ==> r[i] == mem[i]
  {
    hide XorAll;
    var f, off := s.writer.frame, s.writer.off;
    var at, n := DataAt(c, d) + off, Min(30, |f| - off);
    var r := Store(c, d, mem, BusWrite(c, s, WriterTx));
    assert r[at..at + n] == f[off..off + n];
  }

  /** A read copies 32 bytes a transaction, the grabber's 30, or what is left. */
  lemma ReadsAreShort(k: ReaderKind, data: bytes, buf: bytes, len: nat)
    requires |buf| < len <= |data|
    ensures var n := if k == LlmControl then 32 else 30;
      |CopyChunk(k, data, buf, len)| == if len - |buf| < n then len else |buf| + n
  {
  }

  // ---- protocol frames ----

  /**
   * AA 55, the payload length high byte first, kind and mark and number in one byte, function, transaction, payload,
   * and a byte whose bits are the parities of all since the header.
   */
  lemma FrameIsWrittenAs(f: Codec.Fragment, i: nat)
    requires f.Encodable() && i < 8
    ensures var e, n := Codec.Encode(f), |f.payload|;
      && |e| == 8 + n && e[0] == 0xAA && e[1] == 0x55 && HighFirst(e[2], e[3]) == n
      && e[4] == f.kind * 64 + (if f.continuation then 32 else 0) + f.number
      && e[5] == f.func && e[6] == f.txn && e[7..7 + n] == f.payload
      && e[7 + n] / Pow2(i) % 2 == BitCount(e[2..7 + n], i) % 2
  {
    Codec.EncodedBytes(f);
    XorAllIsParity(Codec.Body(f), i);
    hide XorAll, BitCount, Codec.Encode;
  }

  // ---- serial frames ----

  /** The sum of some bytes, counted from the front. */
  function Added(s: bytes): nat {
    if s == [] then 0 else s[0] + Added(s[1..])
  }

  lemma {:induction false} AddedLast(s: bytes)
    requires s != []
    ensures Added(s) == Added(s[..|s| - 1]) + s[|s| - 1]
  {
    if |s| > 1 {
      AddedLast(s[1..]);
      assert s[1..][..|s| - 2] == s[..|s| - 1][1..];
    }
  }

  lemma {:induction false} SumIsAdded(s: bytes)
    ensures SF.Sum(s) == Added(s)
  {
    if s != [] {
      SumIsAdded(s[..|s| - 1]);
      AddedLast(s);
    }
  }

  /** FF FF, id, length, command, data, and the byte that makes them sum up to 255 modulo 256. */
  lemma PacketIsWrittenAs(p: SF.Packet)
    requires p.Sendable()
    ensures var e, n := SF.Encode(p), |p.data|;
      && |e| == 6 + n && e[0] == e[1] == 0xFF && e[2] == p.id && e[3] == 2 + n && e[4] == p.cmd
      && e[5..5 + n] == p.data && (Added(e[2..5 + n]) + e[5 + n]) % 256 == 255
  {
    var e, n := SF.Encode(p), |p.data|;
    assert e[2..5 + n] == SF.Content(p);
    SumIsAdded(SF.Content(p));
    assert e[5 + n] == SF.Checksum(SF.Content(p));
    hide SF.Sum, Added, SF.Content;
  }

  // ---- the firmware image ----

  /** As many packets as 128 bytes each take, the last one perhaps short. */
  lemma PacketsAreNeeded(size: nat)
    ensures 128 * Firmware.Total(size) >= size && (size > 0 ==> 128 * (Firmware.Total(size) - 1) < size)
  {
  }

  /** The index low byte first, up to 128 bytes of the image, and FF up to the next whole word. */
  lemma DataPacketIs(image: bytes, i: nat, k: nat)
    requires 128 * i < |image|
    ensures i * Firmware.PKT_SIZE <= |image|
    ensures var p, left := Firmware.Packet(image, i), |image| - 128 * i;
      var n := if left < 128 then left else 128;
      && (p[0] as int) + 256 * p[1] as int == i % 65536
      && |p| % 4 == 2 && 2 + n <= |p| <= 2 + n + 3
      && (k < n ==> p[2 + k] == image[128 * i + k]) && (n <= k < |p| - 2 ==> p[2 + k] == 0xFF)
  {
    Firmware.IndexIsRecovered(image, i);
  }
}
