/** `sendCmd` and `parseFrame` as the firmware runs them: counters, a 2048-byte buffer, loops. */
module FragmentLink {
  import opened Bytes
  import opened FrameCodec
  import opened Fragments

  lemma FragmentsUnfold(c: Command, off: nat, number: nat, max: nat)
    requires c.Sendable() && max > 0 && off <= |c.payload| && number < SEQ_MODULUS
    ensures var f, fs := FragmentAt(c, off, number, max), FragmentsFrom(c, off, number, max);
      && fs[0] == f
      && fs[1..] == if f.continuation then FragmentsFrom(c, off + |f.payload|, NextNumber(number), max) else []
  {
    hide FragmentAt, FragmentsFrom, NextNumber;
    FirstFragment(c, off, number, max);
  }

  lemma TakeOneMore<T>(s: seq<T>, j: nat)
    requires j < |s|
    ensures s[..j + 1] == s[..j] + [s[j]] && s[j..][0] == s[j] && s[j..][1..] == s[j + 1..]
  {
  }

  lemma NumberAfter(first: nat, j: nat)
    ensures NextNumber((first + j) % SEQ_MODULUS) == (first + (j + 1)) % SEQ_MODULUS
  {
  }

  class Link {
    var txn: byte
    var number: nat
    var fragActive: bool
    var fragKind: nat
    var fragFunc: byte
    var fragTxn: byte
    var fragExpected: nat
    var fragLen: nat
    const fragBuf: array<byte>
    /** Frames written to the host slot and messages handed to the dispatcher, in order. */
    var sent: seq<bytes>
    var dispatched: seq<Message>

    constructor ()
      ensures Valid() && fresh(fragBuf) && Reception() == Idle
      ensures txn == 0 && number == 0 && sent == [] && dispatched == []
    {
      txn, number := 0, 0;
      fragActive, fragKind, fragFunc, fragTxn, fragExpected, fragLen := false, 0, 0, 0, 0, 0;
      fragBuf := new byte[MAX_FRAME_SIZE](_ => 0);
      sent, dispatched := [], [];
    }

    predicate Valid()
      reads this
    {
      fragBuf.Length == MAX_FRAME_SIZE && fragLen <= MAX_FRAME_SIZE && number < SEQ_MODULUS
    }

    /** The reassembly fields as one value; while inactive their contents do not matter. */
    function Reception(): Rx
      requires Valid()
      reads this, fragBuf
    {
      if fragActive then Active(fragKind, fragFunc, fragTxn, fragExpected, fragBuf[..fragLen]) else Idle
    }

    method AdvanceTxn() returns (t: byte)
      modifies this`txn
      ensures t == txn == NextTxn(old(txn))
    {
      txn := (txn + 1) % 256;
      if txn == 0 {
        txn := 1;
      }
      t := txn;
    }

    method AdvanceNumber() returns (n: nat)
      requires number < SEQ_MODULUS
      modifies this`number
      ensures n == old(number) && number == NextNumber(n)
    {
      n := number % SEQ_MODULUS;
      number := (number + 1) % SEQ_MODULUS;
    }

    /**
     * Sends one command. `slots` is how many fragments the host slot takes before it stays busy. The frames written
     * are a prefix of the command's fragments, all of them exactly when the call succeeds.
     */
    method SendCmd(func: byte, payload: bytes, slotSize: nat, slots: nat) returns (ok: bool)
      requires Valid()
      modifies this`txn, this`number, this`sent
      ensures Valid()
      ensures
        if slotSize <= 8 || |payload| > 2040 then
          !ok && txn == old(txn) && number == old(number) && sent == old(sent)
        else
          var fs := FragmentsFrom(Command(func, payload, txn), 0, old(number), MaxPayload(slotSize));
          && txn == NextTxn(old(txn))
          && (ok <==> |fs| <= slots)
          && sent == old(sent) + EncodeAll(fs)[..Min(slots, |fs|)]
          && number == (old(number) + Min(slots, |fs|)) % SEQ_MODULUS
    {
      hide Encode, EncodeAll, FragmentsFrom, FragmentAt, NextNumber, NextTxn;
      if slotSize <= FRAME_OVERHEAD || |payload| > MAX_FRAME_SIZE - FRAME_OVERHEAD {
        return false;
      }
      var max := MaxPayload(slotSize);
      var t := AdvanceTxn();
      var c := Command(func, payload, t);
      ghost var fs := FragmentsFrom(c, 0, number, max);
      var offset: nat, more, j := 0, true, 0;
      while more
        invariant txn == t && number < SEQ_MODULUS && offset <= |payload| && j <= slots && j <= |fs|
        invariant number == (old(number) + j) % SEQ_MODULUS
        invariant sent == old(sent) + EncodeAll(fs)[..j]
        invariant if more then fs[j..] == FragmentsFrom(c, offset, number, max) else j == |fs|
        decreases |fs| - j
      {
        if j == slots {
          return false;
        }
        TakeOneMore(fs, j);
        TakeOneMore(EncodeAll(fs), j);
        FragmentsUnfold(c, offset, number, max);
        NumberAfter(old(number), j);
        offset, more := SendFragment(c, offset, max);
        j := j + 1;
      }
      assert EncodeAll(fs)[..|fs|] == EncodeAll(fs);
      return true;
    }

    /** One round of the send loop: writes the fragment at `offset` and says where the next one starts. */
    method SendFragment(c: Command, offset: nat, max: nat) returns (next: nat, more: bool)
      requires c.Sendable() && offset <= |c.payload| && number < SEQ_MODULUS
      modifies this`number, this`sent
      ensures var f := FragmentAt(c, offset, old(number), max);
        && sent == old(sent) + [Encode(f)] && number == NextNumber(old(number))
        && next == offset + |f.payload| <= |c.payload| && more == f.continuation
    {
      var chunkLen := Min(max, |c.payload| - offset);
      var n := AdvanceNumber();
      var chunk := c.payload[offset..offset + chunkLen];
      var frame := Encode(Fragment(CTRL_TYPE_CMD, offset + chunkLen < |c.payload|, n, c.func, c.txn, chunk));
      sent := sent + [frame];
      next := offset + chunkLen;
      more := next < |c.payload|;
    }

    method ResetRxFragment()
      modifies this`fragActive, this`fragKind, this`fragFunc, this`fragTxn, this`fragExpected, this`fragLen
      ensures !fragActive && fragLen == 0
    {
      fragActive, fragKind, fragFunc, fragTxn, fragExpected, fragLen := false, 0, 0, 0, 0, 0;
    }

    /** Handles one received frame: the fields and the dispatches change exactly as Parse says. */
    method ParseFrame(frame: bytes)
      requires Valid()
      modifies fragBuf, this`fragActive, this`fragKind, this`fragFunc, this`fragTxn, this`fragExpected, this`fragLen,
        this`dispatched
      ensures Valid()
      ensures var o := Parse(old(Reception()), frame);
        Reception() == o.rx && dispatched == old(dispatched) + o.messages
    {
      hide Decode;
      var d := Decode(frame);
      if d.None? {
        return;
      }
      var f := d.value;
      if !f.continuation && !fragActive {
        dispatched := dispatched + [Message(f.kind, f.func, f.payload)];
        return;
      }
      if !fragActive {
        fragActive, fragKind, fragFunc, fragTxn, fragExpected, fragLen := true, f.kind, f.func, f.txn, f.number, 0;
      } else if f.kind != fragKind || f.func != fragFunc || f.txn != fragTxn || f.number != fragExpected {
        ResetRxFragment();
        return;
      }
      if fragLen + |f.payload| > fragBuf.Length {
        ResetRxFragment();
        return;
      }
      ghost var got := fragBuf[..fragLen];
      forall i | 0 <= i < |f.payload| {
        fragBuf[fragLen + i] := f.payload[i];
      }
      fragLen := fragLen + |f.payload|;
      assert fragBuf[..fragLen] == got + f.payload;
      fragExpected := (f.number + 1) % SEQ_MODULUS;
      if f.continuation {
        return;
      }
      dispatched := dispatched + [Message(fragKind, fragFunc, fragBuf[..fragLen])];
      ResetRxFragment();
    }
  }
}
