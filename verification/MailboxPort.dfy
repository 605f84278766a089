/** One peer of the mailbox as the firmware runs it: methods over the raw memory, in chunks of the bus limits. */
module MailboxPort {
  import opened Bytes
  import opened Mailbox
  import opened MailboxMemory

  class Port {
    const mem: array<byte>
    const out: Direction
    var slotSize: nat
    var hostGen: nat
    var devGen: nat

    constructor (mem: array<byte>, out: Direction)
      ensures this.mem == mem && this.out == out && slotSize == hostGen == devGen == 0
    {
      this.mem, this.out := mem, out;
      slotSize, hostGen, devGen := 0, 0, 0;
    }

    predicate Connected()
      reads this, mem
    {
      && mem.Length == MAILBOX_SIZE && Config(slotSize, slotSize, LlmControl).Valid()
      && hostGen < 0x1_0000 && devGen < 0x1_0000
    }

    function SlotOf(d: Direction): (s: Slot)
      requires Connected()
      reads this, mem
      ensures |s.data| == slotSize && s.meta.generation < 0x1_0000 && s.meta.frameLen < 0x1_0000
    {
      View(Config(slotSize, slotSize, LlmControl), d, mem[..])
    }

    method I2cWrite16(memAddr: nat, data: bytes)
      requires memAddr + |data| <= mem.Length
      modifies mem
      ensures mem[..] == Splice(old(mem[..]), memAddr, data)
    {
      var off := 0;
      while off < |data|
        invariant off <= |data|
        invariant mem[..] == Splice(old(mem[..]), memAddr, data[..off])
      {
        var n := Min(WRITE_CHUNK, |data| - off);
        forall i | 0 <= i < n {
          mem[memAddr + off + i] := data[off + i];
        }
        assert mem[..] == Splice(old(mem[..]), memAddr, data[..off + n]);
        off := off + n;
      }
      assert data[..|data|] == data;
    }

    method I2cRead16(memAddr: nat, len: nat) returns (data: bytes)
      requires memAddr + len <= mem.Length
      ensures data == mem[memAddr..memAddr + len]
    {
      data := [];
      while |data| < len
        invariant |data| <= len
        invariant data == mem[memAddr..memAddr + |data|]
      {
        var off, n := |data|, Min(LlmControl.ReadChunk(), len - |data|);
        data := data + mem[memAddr + off..memAddr + off + n];
      }
    }

    method ReadSlotMeta(d: Direction) returns (m: Meta)
      requires Connected()
      ensures m == SlotOf(d).meta
    {
      var raw := I2cRead16(d.MetaOff(), META_SIZE);
      m := DecodeMeta(raw);
      assert raw == mem[..][d.MetaOff()..d.MetaOff() + META_SIZE];
    }

    method WriteSlotMeta(d: Direction, m: Meta)
      requires Connected() && Storable(m)
      modifies mem
      ensures Connected()
      ensures SlotOf(d) == old(SlotOf(d)).(meta := m) && SlotOf(d.Opposite()) == old(SlotOf(d.Opposite()))
    {
      I2cWrite16(d.MetaOff(), EncodeMeta(m));
      StoreMetaRefines(Config(slotSize, slotSize, LlmControl), d, old(mem[..]), m);
    }

    /** Reads the header; succeeds exactly when the magic matches and both slots fit behind the header. */
    method InitMailbox() returns (ok: bool)
      requires mem.Length == MAILBOX_SIZE && hostGen < 0x1_0000 && devGen < 0x1_0000
      modifies this
      ensures ok <==> mem[..4] == [0x57, 0x4C, 0x4D, 0x32] && 0 < 256 * (mem[6] as int) + mem[7] <= 2032
      ensures slotSize == if mem[..4] == [0x57, 0x4C, 0x4D, 0x32] then 256 * (mem[6] as int) + mem[7] else old(slotSize)
      ensures ok ==>
        && Connected()
        && hostGen == SlotOf(out).meta.generation && devGen == SlotOf(out.Opposite()).meta.generation
      ensures !ok ==> hostGen == old(hostGen) && devGen == old(devGen)
    {
      var header := I2cRead16(0, 8);
      assert header[..4] == mem[..4];
      if header[..4] != MAGIC {
        return false;
      }
      slotSize := Join(header[6], header[7]);
      if slotSize == 0 || slotSize > (MAILBOX_SIZE - MAILBOX_HEADER_SIZE) / 2 {
        return false;
      }
      var m := ReadSlotMeta(out);
      hostGen := m.generation;
      m := ReadSlotMeta(out.Opposite());
      devGen := m.generation;
      return true;
    }

    method XorLoop(frame: bytes) returns (xor: byte)
      ensures xor == XorAll(frame)
    {
      xor := 0;
      for i := 0 to |frame|
        invariant xor == XorAll(frame[..i])
      {
        assert frame[..i + 1][..i] == frame[..i];
        xor := Xor(xor, frame[i]);
      }
      assert frame[..|frame|] == frame;
    }

    method WriteSlotData(d: Direction, frame: bytes)
      requires Connected() && |frame| <= slotSize
      modifies mem
      ensures Connected()
      ensures SlotOf(d) == old(SlotOf(d)).(data := Splice(old(SlotOf(d)).data, 0, frame))
      ensures SlotOf(d.Opposite()) == old(SlotOf(d.Opposite()))
    {
      I2cWrite16(d.DataOff(slotSize), frame);
      StoreDataRefines(Config(slotSize, slotSize, LlmControl), d, old(mem[..]), 0, frame);
    }

    method PublishFrame(frame: bytes)
      requires Connected() && |frame| <= slotSize
      modifies mem
      ensures Connected() && SlotOf(out.Opposite()) == old(SlotOf(out.Opposite()))
      ensures SlotOf(out) ==
        Slot(Meta(READY, hostGen, |frame|, XorAll(frame)), Splice(old(SlotOf(out)).data, 0, frame))
    {
      var xor := XorLoop(frame);
      WriteSlotMeta(out, Meta(WRITING, hostGen, |frame|, xor));
      WriteSlotData(out, frame);
      WriteSlotMeta(out, Meta(READY, hostGen, |frame|, xor));
    }

    /** An uninterrupted call leaves exactly the slot that UninterruptedWrite derives from single transactions. */
    method WriteHostSlot(frame: bytes) returns (ok: bool)
      requires Connected()
      modifies mem, this`hostGen
      ensures Connected()
      ensures ok <==> |frame| <= slotSize && old(SlotOf(out)).meta.state == EMPTY
      ensures SlotOf(out.Opposite()) == old(SlotOf(out.Opposite()))
      ensures hostGen == if ok then NextGen(old(hostGen)) else old(hostGen)
      ensures SlotOf(out) ==
        if ok then Slot(Meta(READY, hostGen, |frame|, XorAll(frame)), Splice(old(SlotOf(out)).data, 0, frame))
        else old(SlotOf(out))
    {
      hide View, NextGen, XorAll, Splice;
      if |frame| > slotSize || slotSize == 0 {
        return false;
      }
      var hm := ReadSlotMeta(out);
      if hm.state != EMPTY {
        return false;
      }
      AdvanceGeneration();
      PublishFrame(frame);
      return true;
    }

    method AdvanceGeneration()
      requires hostGen < 0x1_0000
      modifies this`hostGen
      ensures hostGen == NextGen(old(hostGen))
    {
      hostGen := (hostGen + 1) % 0x1_0000;
      if hostGen == 0 {
        hostGen := 1;
      }
    }

    method ReadSlotData(d: Direction, len: nat) returns (data: bytes)
      requires Connected() && len <= slotSize
      ensures data == SlotOf(d).data[..len]
    {
      data := I2cRead16(d.DataOff(slotSize), len);
    }

    /** One uninterrupted call: the answer is ReadOutcome's, and a READY slot ends up empty with its generation. */
    method ReadDevSlot(bufSize: nat) returns (r: ReadResult)
      requires Connected()
      modifies mem, this`devGen
      ensures Connected() && SlotOf(out) == old(SlotOf(out))
      ensures r == ReadOutcome(Config(slotSize, bufSize, LlmControl), old(SlotOf(out.Opposite())), old(devGen))
      ensures var s := old(SlotOf(out.Opposite()));
        if s.meta.state == READY then SlotOf(out.Opposite()) == Emptied(s) && devGen == s.meta.generation
        else SlotOf(out.Opposite()) == s && devGen == old(devGen)
    {
      var dm := ReadSlotMeta(out.Opposite());
      if dm.state != READY {
        return ReadResult(0, []);
      }
      var ack := Meta(EMPTY, dm.generation, 0, 0);
      assert out.Opposite().Opposite() == out;
      if dm.generation == devGen {
        WriteSlotMeta(out.Opposite(), ack);
        return ReadResult(0, []);
      }
      if dm.frameLen < LlmControl.MinFrame() || dm.frameLen > bufSize || dm.frameLen > slotSize {
        WriteSlotMeta(out.Opposite(), ack);
        devGen := dm.generation;
        return ReadResult(0, []);
      }
      var buf := ReadSlotData(out.Opposite(), dm.frameLen);
      WriteSlotMeta(out.Opposite(), ack);
      devGen := dm.generation;
      var xor := XorLoop(buf);
      return ReadResult(if xor != dm.frameXor then -1 else dm.frameLen, buf);
    }

    /**
     * The colour grabber's version: a slot whose generation it knows stays as it is. It does not compare the length
     * with the slot size; no writer announces more (ReadyFitsTheSlot).
     */
    method GrabberReadDevSlot(bufSize: nat) returns (r: ReadResult)
      requires Connected()
      requires SlotOf(out.Opposite()).meta.state == READY ==> SlotOf(out.Opposite()).meta.frameLen <= slotSize
      modifies mem, this`devGen
      ensures Connected() && SlotOf(out) == old(SlotOf(out))
      ensures r == ReadOutcome(Config(slotSize, bufSize, ColorGrabber), old(SlotOf(out.Opposite())), old(devGen))
      ensures var s := old(SlotOf(out.Opposite()));
        if s.meta.state == READY && s.meta.generation != old(devGen) then
          SlotOf(out.Opposite()) == Emptied(s) && devGen == s.meta.generation
        else SlotOf(out.Opposite()) == s && devGen == old(devGen)
    {
      var dm := ReadSlotMeta(out.Opposite());
      if dm.state != READY || dm.generation == devGen {
        return ReadResult(0, []);
      }
      var ack := Meta(EMPTY, dm.generation, 0, 0);
      assert out.Opposite().Opposite() == out;
      if dm.frameLen == 0 || dm.frameLen > bufSize {
        devGen := dm.generation;
        WriteSlotMeta(out.Opposite(), ack);
        return ReadResult(0, []);
      }
      var buf := ReadSlotData(out.Opposite(), dm.frameLen);
      var xor := XorLoop(buf);
      devGen := dm.generation;
      WriteSlotMeta(out.Opposite(), ack);
      return ReadResult(if xor != dm.frameXor then 0 else dm.frameLen, buf);
    }
  }
}
