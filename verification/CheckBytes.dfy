/** What the check byte is for: one changed byte in a slot or in a frame is noticed. */
module CheckBytes {
  import opened Common
  import opened Bytes
  import opened Bits
  import opened Mailbox
  import opened FrameCodec

  /** A slot that holds a whole frame the reader has not taken yet and would return. */
  predicate Holds(c: Config, s: Slot, devGen: nat, f: bytes) {
    && |s.data| == c.slotSize && c.Legal(f)
    && s.meta.state == READY && s.meta.generation != devGen
    && s.meta.frameLen == |f| && s.data[..|f|] == f && s.meta.frameXor == XorAll(f)
  }

  /** An intact frame is returned; with any one byte changed the read answers -1, the grabber's 0. */
  lemma DamagedSlotIsRefused(c: Config, s: Slot, devGen: nat, f: bytes, k: nat, v: byte)
    requires Holds(c, s, devGen, f) && k < |f| && v != f[k]
    ensures ReadOutcome(c, s, devGen) == ReadResult(|f|, f)
    ensures ReadOutcome(c, s.(data := s.data[k := v]), devGen).code == if c.reader.LlmControl? then -1 else 0
  {
    XorNotices(f, k, v);
    assert s.data[k := v][..|f|] == f[k := v];
    hide XorAll;
  }

  /** What a write leaves in an empty slot is such a frame, and each bit of its check byte is a parity. */
  lemma WritesAreChecked(c: Config, s: System, f: bytes, i: nat) returns (es: seq<Event>)
    requires Inv(c, s) && s.writer == WIdle && s.slot.meta.state == EMPTY && c.Legal(f) && i < 8
    ensures forall e :: e in es ==> e == Post(f) || e == WriterTx
    ensures var r := Run(c, s, es);
      && Holds(c, r.slot, r.devGen, f)
      && r.slot.meta.frameXor / Pow2(i) % 2 == BitCount(f, i) % 2
  {
    es := UninterruptedWrite(c, s, f);
    RunKeepsInv(c, s, es);
    XorAllIsParity(f, i);
    hide XorAll, BitCount;
  }

  lemma DamagedBodyIsNoticed(f: Fragment, k: nat, v: byte)
    requires f.Encodable() && 4 <= k < 8 + |f.payload| && |Encode(f)| == 8 + |f.payload| && v != Encode(f)[k]
    ensures var d, n := Encode(f)[k := v], |f.payload|; XorAll(d[2..7 + n]) != d[7 + n]
  {
    EncodedBytes(f);
    var e, n := Encode(f), |f.payload|;
    var d := e[k := v];
    hide XorAll, Body, Encode;
    if k < 7 + n {
      assert d[2..7 + n] == Body(f)[k - 2 := v];
      XorNotices(Body(f), k - 2, v);
    } else {
      assert d[2..7 + n] == Body(f);
    }
  }

  /** Any changed byte of an encoded frame makes the parser drop it, unless it is one of the two length bytes. */
  lemma DamagedFrameIsDropped(f: Fragment, k: nat, v: byte)
    requires f.Encodable() && k < |Encode(f)| && v != Encode(f)[k] && k != 2 && k != 3
    ensures Decode(Encode(f)[k := v]) == None
  {
    EncodedBytes(f);
    JoinSplit(|f.payload|);
    if k >= 4 {
      DamagedBodyIsNoticed(f, k, v);
    }
    hide XorAll, Body, Encode, Join, Hi, Lo, Ctrl;
  }
}
