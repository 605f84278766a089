/**
 * Fragmentation on top of the mailbox: `sendCmd` cuts a payload into numbered fragments, `parseFrame` puts them
 * together again. FragmentLink runs the same operations on fields and a buffer.
 */
module Fragments {
  import opened Common
  import opened Bytes
  import opened FrameCodec

  const MAX_FRAME_SIZE: nat := 2048
  const CTRL_TYPE_CMD: nat := 0

  // ---- reassembly ----

  datatype Message = Message(kind: nat, func: byte, payload: bytes)

  /** The `_rx_frag_*` fields: idle, or collecting a message whose next fragment must carry `expected`. */
  datatype Rx = Idle | Active(kind: nat, func: byte, txn: byte, expected: nat, buf: bytes)

  /** The receiver after something arrived, and the messages it dispatched. */
  datatype Outcome = Outcome(rx: Rx, messages: seq<Message>)

  function Collect(rx: Rx, f: Fragment): Outcome {
    if rx.Idle? && !f.continuation then Outcome(Idle, [Message(f.kind, f.func, f.payload)])
    else
      var a := if rx.Idle? then Active(f.kind, f.func, f.txn, f.number, []) else rx;
      if f.kind != a.kind || f.func != a.func || f.txn != a.txn || f.number != a.expected then Outcome(Idle, [])
      else if |a.buf| + |f.payload| > MAX_FRAME_SIZE then Outcome(Idle, [])
      else if f.continuation then
        Outcome(a.(buf := a.buf + f.payload, expected := (f.number + 1) % SEQ_MODULUS), [])
      else Outcome(Idle, [Message(a.kind, a.func, a.buf + f.payload)])
  }

  /** `parseFrame` up to the dispatch: a damaged frame changes nothing. */
  function Parse(rx: Rx, frame: bytes): Outcome {
    match Decode(frame)
    case None => Outcome(rx, [])
    case Some(f) => Collect(rx, f)
  }

  function CollectAll(rx: Rx, fs: seq<Fragment>): Outcome
    decreases |fs|
  {
    if fs == [] then Outcome(rx, []) else
      var first := Collect(rx, fs[0]);
      var rest := CollectAll(first.rx, fs[1..]);
      Outcome(rest.rx, first.messages + rest.messages)
  }

  function ParseAll(rx: Rx, frames: seq<bytes>): Outcome
    decreases |frames|
  {
    if frames == [] then Outcome(rx, []) else
      var first := Parse(rx, frames[0]);
      var rest := ParseAll(first.rx, frames[1..]);
      Outcome(rest.rx, first.messages + rest.messages)
  }

  lemma {:induction false} ParseAllAppend(rx: Rx, a: seq<bytes>, b: seq<bytes>)
    ensures var oa := ParseAll(rx, a);
      var ob := ParseAll(oa.rx, b);
      ParseAll(rx, a + b) == Outcome(ob.rx, oa.messages + ob.messages)
    decreases |a|
  {
    hide Parse;
    if a == [] {
      assert a + b == b;
    } else {
      assert (a + b)[1..] == a[1..] + b;
      ParseAllAppend(Parse(rx, a[0]).rx, a[1..], b);
    }
  }

  predicate RxOk(rx: Rx) {
    rx.Active? ==> |rx.buf| <= 2048 && rx.expected < 32
  }

  lemma CollectOk(rx: Rx, f: Fragment)
    requires RxOk(rx) && f.Encodable()
    ensures RxOk(Collect(rx, f).rx)
    ensures rx.Active? ==> forall m :: m in Collect(rx, f).messages ==> |m.payload| <= 2048
  {
  }

  /** Whatever arrives, in whatever order, the reassembly buffer never overflows. */
  lemma {:induction false} NeverOverflows(rx: Rx, frames: seq<bytes>)
    requires RxOk(rx)
    ensures RxOk(ParseAll(rx, frames).rx)
    decreases |frames|
  {
    if frames != [] {
      if Decode(frames[0]).Some? {
        CollectOk(rx, Decode(frames[0]).value);
      }
      NeverOverflows(Parse(rx, frames[0]).rx, frames[1..]);
    }
  }

  // ---- sending ----

  /** Transaction numbers count 1..255 and skip zero. */
  function NextTxn(t: byte): (n: byte)
    ensures n == if t == 255 then 1 else t + 1
  {
    if (t + 1) % 256 == 0 then 1 else (t + 1) % 256
  }

  function NextNumber(n: nat): (r: nat)
    ensures r < SEQ_MODULUS
  {
    (n + 1) % SEQ_MODULUS
  }

  /** A full fragment fills the slot or the frame buffer. */
  function MaxPayload(slotSize: nat): (n: nat)
    requires slotSize > FRAME_OVERHEAD
    ensures n > 0 && n + 8 == if slotSize < 2048 then slotSize else 2048
  {
    Min(MAX_FRAME_SIZE - FRAME_OVERHEAD, slotSize - FRAME_OVERHEAD)
  }

  /** What the fragments of one `sendCmd` call share. */
  datatype Command = Command(func: byte, payload: bytes, txn: byte) {
    predicate Sendable() {
      |payload| <= 2040
    }
  }

  /** The fragment that starts at `off`. */
  function FragmentAt(c: Command, off: nat, number: nat, max: nat): (f: Fragment)
    requires c.Sendable() && off <= |c.payload| && number < SEQ_MODULUS
    ensures f.Encodable()
  {
    var n := Min(max, |c.payload| - off);
    Fragment(CTRL_TYPE_CMD, off + n < |c.payload|, number, c.func, c.txn, c.payload[off..off + n])
  }

  /** The fragments of a command from offset `off` on: at least one, each with at most `max` payload bytes. */
  function FragmentsFrom(c: Command, off: nat, number: nat, max: nat): (fs: seq<Fragment>)
    requires c.Sendable() && max > 0 && off <= |c.payload| && number < SEQ_MODULUS
    ensures |fs| >= 1 && fs[0] == FragmentAt(c, off, number, max)
    ensures forall f :: f in fs ==> f.Encodable() && |f.payload| <= max
    decreases |c.payload| - off
  {
    var f := FragmentAt(c, off, number, max);
    if f.continuation then [f] + FragmentsFrom(c, off + max, NextNumber(number), max) else [f]
  }

  /** How many fragments a payload takes. */
  function Pieces(len: nat, max: nat): (n: nat)
    requires max > 0
    ensures n > 0
  {
    if len <= max then 1 else 1 + Pieces(len - max, max)
  }

  /** As many as are needed. */
  lemma {:induction false} PiecesAreNeeded(len: nat, max: nat)
    requires max > 0
    ensures len <= Pieces(len, max) * max && (Pieces(len, max) > 1 ==> (Pieces(len, max) - 1) * max < len)
  {
    if len > max {
      PiecesAreNeeded(len - max, max);
      var n := Pieces(len - max, max);
      assert (1 + n) * max == n * max + max && n * max == (n - 1) * max + max;
    }
  }

  /** The bytes that `k` full fragments carry. */
  function Carried(k: nat, max: nat): nat {
    if k == 0 then 0 else max + Carried(k - 1, max)
  }

  lemma {:induction false} CarriedIsAProduct(k: nat, max: nat)
    ensures Carried(k, max) == k * max
  {
    if k > 0 {
      CarriedIsAProduct(k - 1, max);
    }
  }

  /** A fragment that carries the bytes from `from` on: `max` of them and the mark if there are more, or the rest. */
  predicate IsPiece(c: Command, from: nat, number: nat, max: nat, more: bool, f: Fragment) {
    && from <= |c.payload| && (more ==> from + max < |c.payload|)
    && f == Fragment(0, more, number, c.func, c.txn, c.payload[from..if more then from + max else |c.payload|])
  }

  /** The sequence number `i` fragments after `number`. */
  function Nth(number: nat, i: nat): (n: nat)
    ensures n < SEQ_MODULUS
  {
    (number + i) % 32
  }

  /** Behind its first fragment a command goes on as if it began there. */
  lemma RestIs(c: Command, off: nat, number: nat, max: nat)
    requires c.Sendable() && max > 0 && off <= |c.payload| && number < SEQ_MODULUS
    requires |FragmentsFrom(c, off, number, max)| > 1
    ensures off + max < |c.payload|
    ensures FragmentsFrom(c, off, number, max)[1..] == FragmentsFrom(c, off + max, NextNumber(number), max)
  {
  }

  lemma FirstIs(c: Command, off: nat, number: nat, max: nat)
    requires c.Sendable() && max > 0 && off <= |c.payload| && number < SEQ_MODULUS
    ensures var fs := FragmentsFrom(c, off, number, max); IsPiece(c, off, number, max, |fs| > 1, fs[0])
  {
    FragmentAtIs(c, off, number, max);
    hide IsPiece;
  }

  lemma {:induction false} BehindFragments(c: Command, number: nat, max: nat, i: nat)
    requires c.Sendable() && max > 0 && number < SEQ_MODULUS && i < |FragmentsFrom(c, 0, number, max)|
    ensures Carried(i, max) <= |c.payload|
    ensures FragmentsFrom(c, 0, number, max)[i..] == FragmentsFrom(c, Carried(i, max), Nth(number, i), max)
  {
    hide FragmentsFrom, Nth, NextNumber;
    NthGoesOn(number, if i == 0 then 0 else i - 1);
    var fs := FragmentsFrom(c, 0, number, max);
    if i == 0 {
      assert fs[0..] == fs;
    } else {
      BehindFragments(c, number, max, i - 1);
      assert fs[i - 1..][1..] == fs[i..];
      RestIs(c, Carried(i - 1, max), Nth(number, i - 1), max);
    }
  }

  lemma NthGoesOn(number: nat, i: nat)
    ensures number < SEQ_MODULUS ==> Nth(number, 0) == number
    ensures NextNumber(Nth(number, i)) == Nth(number, i + 1)
  {
  }

  lemma PieceIs(c: Command, number: nat, max: nat, i: nat)
    requires c.Sendable() && max > 0 && number < SEQ_MODULUS && i < |FragmentsFrom(c, 0, number, max)|
    ensures var fs := FragmentsFrom(c, 0, number, max);
      IsPiece(c, Carried(i, max), Nth(number, i), max, i < |fs| - 1, fs[i])
  {
    var fs := FragmentsFrom(c, 0, number, max);
    hide FragmentsFrom, IsPiece, Carried, Nth;
    BehindFragments(c, number, max, i);
    FirstIs(c, Carried(i, max), Nth(number, i), max);
    assert fs[i..][0] == fs[i] && |fs[i..]| == |fs| - i;
  }

  /** Fragment `i` of a command carries the bytes from `i * max` on; numbers are consecutive modulo 32. */
  lemma FragmentIs(c: Command, number: nat, max: nat, i: nat)
    requires c.Sendable() && max > 0 && number < SEQ_MODULUS && i < Pieces(|c.payload|, max)
    ensures var fs, n := FragmentsFrom(c, 0, number, max), Pieces(|c.payload|, max);
      |fs| == n && IsPiece(c, i * max, (number + i) % 32, max, i < n - 1, fs[i])
  {
    assert Nth(number, i) == (number + i) % 32;
    hide FragmentsFrom, IsPiece, Carried, Nth, Pieces;
    PiecesOfRest(c, 0, number, max);
    PieceIs(c, number, max, i);
    CarriedIsAProduct(i, max);
  }

  lemma FragmentAtIs(c: Command, off: nat, number: nat, max: nat)
    requires c.Sendable() && off <= |c.payload| && number < SEQ_MODULUS
    ensures IsPiece(c, off, number, max, off + max < |c.payload|, FragmentAt(c, off, number, max))
  {
  }

  lemma {:induction false} PiecesOfRest(c: Command, off: nat, number: nat, max: nat)
    requires c.Sendable() && max > 0 && off <= |c.payload| && number < SEQ_MODULUS
    ensures |FragmentsFrom(c, off, number, max)| == Pieces(|c.payload| - off, max)
    decreases |c.payload| - off
  {
    if off + max < |c.payload| {
      PiecesOfRest(c, off + max, NextNumber(number), max);
    }
  }

  function EncodeAll(fs: seq<Fragment>): (frames: seq<bytes>)
    requires forall f :: f in fs ==> f.Encodable()
    ensures |frames| == |fs| && forall i :: 0 <= i < |fs| ==> frames[i] == Encode(fs[i])
  {
    if fs == [] then [] else [Encode(fs[0])] + EncodeAll(fs[1..])
  }

  /** Parsing built frames is collecting their fragments. */
  lemma {:induction false} ParseEncoded(rx: Rx, fs: seq<Fragment>)
    requires forall f :: f in fs ==> f.Encodable()
    ensures ParseAll(rx, EncodeAll(fs)) == CollectAll(rx, fs)
    decreases |fs|
  {
    if fs != [] {
      DecodeEncode(fs[0]);
      ParseEncoded(Collect(rx, fs[0]).rx, fs[1..]);
      assert EncodeAll(fs)[1..] == EncodeAll(fs[1..]);
    }
  }

  /** A fragment that is not the one waited for ends the message, and both are lost. */
  lemma StrayFragmentResets(rx: Rx, f: Fragment)
    requires rx.Active?
    requires f.kind != rx.kind || f.func != rx.func || f.txn != rx.txn || f.number != rx.expected
    ensures Collect(rx, f) == Outcome(Idle, [])
  {
  }

  /** The one waited for is taken exactly if 2048 bytes hold it. */
  lemma FittingFragmentIsTaken(rx: Rx, f: Fragment)
    requires rx.Active? && f.kind == rx.kind && f.func == rx.func && f.txn == rx.txn && f.number == rx.expected < 32
    ensures var o := Collect(rx, f);
      if |rx.buf| + |f.payload| > 2048 then o == Outcome(Idle, [])
      else if !f.continuation then o == Outcome(Idle, [Message(rx.kind, rx.func, rx.buf + f.payload)])
      else o.messages == [] && o.rx == Active(rx.kind, rx.func, rx.txn, if f.number == 31 then 0 else f.number + 1,
                                              rx.buf + f.payload)
  {
  }

  // ---- one command arrives whole ----

  lemma NothingCollected(rx: Rx)
    ensures CollectAll(rx, []) == Outcome(rx, [])
  {
  }

  /** What the next fragment does to a receiver waiting for it. */
  lemma FragmentArrives(c: Command, off: nat, number: nat, max: nat, got: bytes)
    requires c.Sendable() && off <= |c.payload| && number < SEQ_MODULUS
    requires |got| + |c.payload| - off <= MAX_FRAME_SIZE
    ensures var f := FragmentAt(c, off, number, max);
      Collect(Active(CTRL_TYPE_CMD, c.func, c.txn, number, got), f) ==
        if f.continuation then
          Outcome(Active(CTRL_TYPE_CMD, c.func, c.txn, NextNumber(number), got + f.payload), [])
        else Outcome(Idle, [Message(CTRL_TYPE_CMD, c.func, got + f.payload)])
  {
  }

  lemma Regroup(got: bytes, p: bytes, off: nat, n: nat)
    requires off + n <= |p|
    ensures got + p[off..off + n] + p[off + n..] == got + p[off..]
  {
  }

  /** A receiver waiting at `off` with `got` collected dispatches `got` followed by the payload from `off` on. */
  lemma {:induction false} RestArrives(c: Command, off: nat, number: nat, max: nat, got: bytes)
    requires c.Sendable() && max > 0 && off <= |c.payload| && number < SEQ_MODULUS
    requires |got| + |c.payload| - off <= MAX_FRAME_SIZE
    ensures CollectAll(Active(CTRL_TYPE_CMD, c.func, c.txn, number, got), FragmentsFrom(c, off, number, max)) ==
      Outcome(Idle, [Message(CTRL_TYPE_CMD, c.func, got + c.payload[off..])])
    decreases |c.payload| - off
  {
    hide Collect;
    var f, fs := FragmentAt(c, off, number, max), FragmentsFrom(c, off, number, max);
    FragmentArrives(c, off, number, max, got);
    if f.continuation {
      assert fs[1..] == FragmentsFrom(c, off + max, NextNumber(number), max);
      RestArrives(c, off + max, NextNumber(number), max, got + f.payload);
      Regroup(got, c.payload, off, max);
    } else {
      assert fs[1..] == [] && f.payload == c.payload[off..];
      NothingCollected(Idle);
    }
  }

  /** An idle receiver turns the fragments from `off` on into one message: the payload from there on. */
  lemma TailArrives(c: Command, off: nat, number: nat, max: nat)
    requires c.Sendable() && max > 0 && off <= |c.payload| && number < SEQ_MODULUS
    ensures CollectAll(Idle, FragmentsFrom(c, off, number, max)) ==
      Outcome(Idle, [Message(CTRL_TYPE_CMD, c.func, c.payload[off..])])
  {
    var f, fs := FragmentAt(c, off, number, max), FragmentsFrom(c, off, number, max);
    if f.continuation {
      assert Collect(Idle, f) == Collect(Active(CTRL_TYPE_CMD, c.func, c.txn, number, []), f);
      RestArrives(c, off, number, max, []);
      assert [] + c.payload[off..] == c.payload[off..];
    } else {
      assert fs[1..] == [] && f.payload == c.payload[off..];
    }
  }

  // ---- whole conversations ----

  /** A `sendCmd` request: function and payload; transaction and sequence numbers come from the sender. */
  datatype Request = Request(func: byte, payload: bytes) {
    predicate Sendable() {
      |payload| <= 2040
    }
  }

  function RequestFragments(r: Request, txn: byte, number: nat, max: nat): (fs: seq<Fragment>)
    requires r.Sendable() && max > 0 && number < SEQ_MODULUS
    ensures forall f :: f in fs ==> f.Encodable() && |f.payload| <= max
  {
    FragmentsFrom(Command(r.func, r.payload, txn), 0, number, max)
  }

  predicate AllSendable(rs: seq<Request>) {
    forall i :: 0 <= i < |rs| ==> rs[i].Sendable()
  }

  /** The fragments of consecutive successful, non-nested calls from a sender at `txn` and `number`. */
  function Conversation(rs: seq<Request>, txn: byte, number: nat, max: nat): (fs: seq<Fragment>)
    requires AllSendable(rs) && max > 0 && number < SEQ_MODULUS
    ensures forall f :: f in fs ==> f.Encodable() && |f.payload| <= max
    decreases |rs|
  {
    if rs == [] then [] else
      var own := RequestFragments(rs[0], NextTxn(txn), number, max);
      own + Conversation(rs[1..], NextTxn(txn), (number + |own|) % SEQ_MODULUS, max)
  }

  function MessagesOf(rs: seq<Request>): (ms: seq<Message>)
    ensures |ms| == |rs|
    ensures forall i :: 0 <= i < |rs| ==> ms[i] == Message(CTRL_TYPE_CMD, rs[i].func, rs[i].payload)
  {
    if rs == [] then [] else [Message(CTRL_TYPE_CMD, rs[0].func, rs[0].payload)] + MessagesOf(rs[1..])
  }

  lemma {:induction false} CollectAllAppend(rx: Rx, a: seq<Fragment>, b: seq<Fragment>)
    ensures var oa := CollectAll(rx, a);
      var ob := CollectAll(oa.rx, b);
      CollectAll(rx, a + b) == Outcome(ob.rx, oa.messages + ob.messages)
    decreases |a|
  {
    if a == [] {
      assert a + b == b;
    } else {
      assert (a + b)[1..] == a[1..] + b;
      CollectAllAppend(Collect(rx, a[0]).rx, a[1..], b);
    }
  }

  lemma RequestArrives(r: Request, txn: byte, number: nat, max: nat)
    requires r.Sendable() && max > 0 && number < SEQ_MODULUS
    ensures CollectAll(Idle, RequestFragments(r, txn, number, max)) ==
      Outcome(Idle, [Message(CTRL_TYPE_CMD, r.func, r.payload)])
  {
    TailArrives(Command(r.func, r.payload, txn), 0, number, max);
    assert r.payload[0..] == r.payload;
  }

  /**
   * Every conversation is understood: whatever the slot size, the starting transaction and sequence numbers and
   * however often they wrap, the frames of successful sends reassemble to exactly the requests, in order, and
   * leave the receiver idle.
   */
  lemma {:induction false} ConversationArrives(rs: seq<Request>, txn: byte, number: nat, max: nat)
    requires AllSendable(rs) && max > 0 && number < SEQ_MODULUS
    ensures CollectAll(Idle, Conversation(rs, txn, number, max)) == Outcome(Idle, MessagesOf(rs))
    decreases |rs|
  {
    hide RequestFragments, CollectAll;
    NothingCollected(Idle);
    if rs != [] {
      var own := RequestFragments(rs[0], NextTxn(txn), number, max);
      var number' := (number + |own|) % SEQ_MODULUS;
      RequestArrives(rs[0], NextTxn(txn), number, max);
      ConversationArrives(rs[1..], NextTxn(txn), number', max);
      CollectAllAppend(Idle, own, Conversation(rs[1..], NextTxn(txn), number', max));
    }
  }

  /** The same on raw frames, as the bytes leave `buildFrame` and enter `parseFrame`. */
  lemma FramesArrive(rs: seq<Request>, txn: byte, number: nat, max: nat)
    requires AllSendable(rs) && max > 0 && number < SEQ_MODULUS
    ensures ParseAll(Idle, EncodeAll(Conversation(rs, txn, number, max))) == Outcome(Idle, MessagesOf(rs))
  {
    ConversationArrives(rs, txn, number, max);
    ParseEncoded(Idle, Conversation(rs, txn, number, max));
  }

  // ---- a send that was cut short ----

  lemma CollectNext(rx: Rx, f: Fragment, rest: seq<Fragment>)
    ensures var first := Collect(rx, f);
      var later := CollectAll(first.rx, rest);
      CollectAll(rx, [f] + rest) == Outcome(later.rx, first.messages + later.messages)
  {
    assert ([f] + rest)[1..] == rest;
    hide Collect;
  }

  lemma FirstFragment(c: Command, off: nat, number: nat, max: nat)
    requires c.Sendable() && max > 0 && off <= |c.payload| && number < SEQ_MODULUS
    ensures var f := FragmentAt(c, off, number, max);
      && f.continuation == (off + max < |c.payload|)
      && |f.payload| == Min(max, |c.payload| - off)
      && FragmentsFrom(c, off, number, max) ==
        [f] + if off + max < |c.payload| then FragmentsFrom(c, off + max, NextNumber(number), max) else []
  {
  }

  function Waiting(c: Command, number: nat, got: bytes): Rx {
    Active(CTRL_TYPE_CMD, c.func, c.txn, number, got)
  }

  /** The next full fragment of a longer command moves a waiting receiver on, if there is room for it. */
  lemma FullFragmentArrives(c: Command, off: nat, number: nat, max: nat, got: bytes, rest: seq<Fragment>)
    requires c.Sendable() && off + max < |c.payload| && number < SEQ_MODULUS && |got| + max <= MAX_FRAME_SIZE
    ensures CollectAll(Waiting(c, number, got), [FragmentAt(c, off, number, max)] + rest) ==
      CollectAll(Waiting(c, NextNumber(number), got + c.payload[off..off + max]), rest)
  {
    var f, rx := FragmentAt(c, off, number, max), Waiting(c, number, got);
    assert Collect(rx, f) == Outcome(Waiting(c, NextNumber(number), got + c.payload[off..off + max]), []);
    hide CollectAll, Collect;
    CollectNext(rx, f, rest);
  }

  lemma FirstOfMany(c: Command, off: nat, number: nat, max: nat, k: nat)
    requires c.Sendable() && max > 0 && off <= |c.payload| && number < SEQ_MODULUS
    requires 0 < k < |FragmentsFrom(c, off, number, max)|
    ensures off + max < |c.payload|
    ensures var rest := FragmentsFrom(c, off + max, NextNumber(number), max);
      && k - 1 < |rest|
      && FragmentsFrom(c, off, number, max)[..k] == [FragmentAt(c, off, number, max)] + rest[..k - 1]
  {
  }

  /** Stopping after `k` fragments leaves the receiver waiting for the next number with what they carried. */
  lemma {:induction false} PrefixIsCollected(c: Command, off: nat, number: nat, max: nat, got: bytes, k: nat)
    requires c.Sendable() && max > 0 && off <= |c.payload| && number < SEQ_MODULUS
    requires |got| + |c.payload| - off <= MAX_FRAME_SIZE
    requires k < |FragmentsFrom(c, off, number, max)|
    ensures off + Carried(k, max) <= |c.payload|
    ensures CollectAll(Waiting(c, number, got), FragmentsFrom(c, off, number, max)[..k]) ==
      Outcome(Waiting(c, (number + k) % SEQ_MODULUS, got + c.payload[off..off + Carried(k, max)]), [])
    decreases k
  {
    hide CollectAll, FragmentsFrom, FragmentAt, NextNumber, Waiting;
    if k == 0 {
      NothingCollected(Waiting(c, number, got));
      assert got + c.payload[off..off] == got;
    } else {
      FirstOfMany(c, off, number, max, k);
      var next, more := NextNumber(number), got + c.payload[off..off + max];
      FullFragmentArrives(c, off, number, max, got, FragmentsFrom(c, off + max, next, max)[..k - 1]);
      PrefixIsCollected(c, off + max, next, max, more, k - 1);
      NumbersAdd(number, k - 1);
      RegroupNext(got, c.payload, off, max, Carried(k - 1, max));
    }
  }

  lemma NumbersAdd(number: nat, k: nat)
    requires number < SEQ_MODULUS
    ensures (NextNumber(number) + k) % SEQ_MODULUS == (number + (k + 1)) % SEQ_MODULUS
  {
  }

  lemma RegroupNext(got: bytes, p: bytes, off: nat, n: nat, m: nat)
    requires off + n + m <= |p|
    ensures got + p[off..off + n] + p[off + n..off + n + m] == got + p[off..off + n + m]
  {
  }

  /** The offset behind the first fragment that does not fit behind `len` collected bytes. */
  function Overrun(len: nat, p: bytes, off: nat, max: nat): (end: nat)
    requires max > 0 && off <= |p| && len + |p| - off > MAX_FRAME_SIZE
    ensures off <= end <= |p|
    decreases |p| - off
  {
    var n := Min(max, |p| - off);
    if len + n > MAX_FRAME_SIZE then off + n else Overrun(len + n, p, off + n, max)
  }

  lemma OverrunNext(len: nat, p: bytes, off: nat, max: nat)
    requires max > 0 && off <= |p| && len + |p| - off > MAX_FRAME_SIZE
    ensures var n := Min(max, |p| - off);
      if len + n > MAX_FRAME_SIZE then Overrun(len, p, off, max) == off + n
      else n == max && off + max < |p| && Overrun(len, p, off, max) == Overrun(len + max, p, off + max, max)
  {
  }

  /** What an idle receiver makes of a command whose first `end` bytes are lost. */
  function TailOf(c: Command, end: nat): Outcome
    requires end <= |c.payload|
  {
    Outcome(Idle, if end == |c.payload| then [] else [Message(CTRL_TYPE_CMD, c.func, c.payload[end..])])
  }

  lemma RestAfter(c: Command, off: nat, number: nat, max: nat, rx: Rx)
    requires c.Sendable() && max > 0 && off <= |c.payload| && number < SEQ_MODULUS
    requires Collect(rx, FragmentAt(c, off, number, max)) == Outcome(Idle, [])
    ensures CollectAll(rx, FragmentsFrom(c, off, number, max)) == TailOf(c, off + Min(max, |c.payload| - off))
  {
    hide CollectAll, Collect, FragmentsFrom, FragmentAt;
    FirstFragment(c, off, number, max);
    var f := FragmentAt(c, off, number, max);
    if off + max < |c.payload| {
      CollectNext(rx, f, FragmentsFrom(c, off + max, NextNumber(number), max));
      TailArrives(c, off + max, NextNumber(number), max);
    } else {
      CollectNext(rx, f, []);
      NothingCollected(Idle);
    }
  }

  lemma NoRoom(c: Command, off: nat, number: nat, max: nat, got: bytes)
    requires c.Sendable() && off <= |c.payload| && number < SEQ_MODULUS
    requires |got| + Min(max, |c.payload| - off) > MAX_FRAME_SIZE
    ensures Collect(Waiting(c, number, got), FragmentAt(c, off, number, max)) == Outcome(Idle, [])
  {
  }

  /** With room for a full fragment, the outcome is that of the rest of the command. */
  lemma RoomForOne(c: Command, off: nat, number: nat, max: nat, got: bytes)
    requires c.Sendable() && max > 0 && off + max < |c.payload| && number < SEQ_MODULUS
    requires |got| + max <= MAX_FRAME_SIZE
    ensures CollectAll(Waiting(c, number, got), FragmentsFrom(c, off, number, max)) ==
      CollectAll(Waiting(c, NextNumber(number), got + c.payload[off..off + max]),
                 FragmentsFrom(c, off + max, NextNumber(number), max))
  {
    hide CollectAll, Collect, FragmentsFrom, FragmentAt, NextNumber, Waiting;
    FirstFragment(c, off, number, max);
    FullFragmentArrives(c, off, number, max, got, FragmentsFrom(c, off + max, NextNumber(number), max));
  }

  /** A command that does not fit the buffer behind what is there is lost up to the fragment that overruns it. */
  lemma {:induction false} OverrunDropsTheHead(c: Command, off: nat, number: nat, max: nat, got: bytes)
    requires c.Sendable() && max > 0 && off <= |c.payload| && number < SEQ_MODULUS
    requires |got| + |c.payload| - off > MAX_FRAME_SIZE
    ensures CollectAll(Waiting(c, number, got), FragmentsFrom(c, off, number, max)) ==
      TailOf(c, Overrun(|got|, c.payload, off, max))
    decreases |c.payload| - off
  {
    hide *;
    OverrunNext(|got|, c.payload, off, max);
    if |got| + Min(max, |c.payload| - off) > MAX_FRAME_SIZE {
      NoRoom(c, off, number, max, got);
      RestAfter(c, off, number, max, Waiting(c, number, got));
    } else {
      RoomForOne(c, off, number, max, got);
      OverrunDropsTheHead(c, off + max, NextNumber(number), max, got + c.payload[off..off + max]);
    }
  }

  /** The next command is taken for the continuation of one that was given up after `k` fragments. */
  predicate Continues(a: Command, number: nat, k: nat, b: Command, number': nat) {
    b.func == a.func && b.txn == a.txn && number' == (number + k) % SEQ_MODULUS
  }

  /** The first fragment opens a message whether or not the receiver was told to expect it. */
  lemma IdleStartsCollecting(a: Command, number: nat, max: nat, k: nat)
    requires a.Sendable() && max > 0 && number < SEQ_MODULUS && 0 < k < |FragmentsFrom(a, 0, number, max)|
    ensures var fa := FragmentsFrom(a, 0, number, max);
      CollectAll(Idle, fa[..k]) == CollectAll(Waiting(a, number, []), fa[..k])
  {
    var fa := FragmentsFrom(a, 0, number, max);
    assert Collect(Idle, fa[0]) == Collect(Active(CTRL_TYPE_CMD, a.func, a.txn, number, []), fa[0]);
    assert fa[..k][0] == fa[0];
  }

  /**
   * What becomes of the command after a send that gave up between two fragments. If it does not look like the
   * continuation, it loses its first fragment and only that: a single frame vanishes, otherwise the payload from the
   * second fragment on is taken for the whole message. If it does, it is appended to what was collected, or, when
   * that would overrun the buffer, lost up to the fragment that does. The receiver is idle again in every case.
   */
  lemma AfterAnAbortedSend(a: Command, b: Command, k: nat, number: nat, number': nat, max: nat)
    requires a.Sendable() && b.Sendable() && max > 0 && number < SEQ_MODULUS && number' < SEQ_MODULUS
    requires 0 < k < |FragmentsFrom(a, 0, number, max)|
    ensures k * max <= |a.payload|
    ensures CollectAll(Idle, FragmentsFrom(a, 0, number, max)[..k] + FragmentsFrom(b, 0, number', max)) ==
      if !Continues(a, number, k, b, number') then TailOf(b, Min(max, |b.payload|))
      else if k * max + |b.payload| <= MAX_FRAME_SIZE then
        Outcome(Idle, [Message(CTRL_TYPE_CMD, b.func, a.payload[..k * max] + b.payload)])
      else TailOf(b, Overrun(k * max, b.payload, 0, max))
  {
    hide CollectAll, Collect, FragmentsFrom, TailOf, Carried, Overrun, Waiting, FragmentAt;
    var fa, fb := FragmentsFrom(a, 0, number, max), FragmentsFrom(b, 0, number', max);
    CarriedIsAProduct(k, max);
    PrefixIsCollected(a, 0, number, max, [], k);
    var got := a.payload[..Carried(k, max)];
    assert [] + a.payload[0..0 + Carried(k, max)] == got;
    IdleStartsCollecting(a, number, max, k);
    CollectAllAppend(Idle, fa[..k], fb);
    if !Continues(a, number, k, b, number') {
      DoesNotContinue(a, number, k, b, number', max, got);
      RestAfter(b, 0, number', max, Waiting(a, (number + k) % SEQ_MODULUS, got));
    } else if Carried(k, max) + |b.payload| <= MAX_FRAME_SIZE {
      SameWaiting(a, b, number', got);
      RestArrives(b, 0, number', max, got);
      assert b.payload[0..] == b.payload;
    } else {
      SameWaiting(a, b, number', got);
      OverrunDropsTheHead(b, 0, number', max, got);
    }
  }

  lemma SameWaiting(a: Command, b: Command, number: nat, got: bytes)
    requires a.func == b.func && a.txn == b.txn
    ensures Waiting(a, number, got) == Waiting(b, number, got) == Active(CTRL_TYPE_CMD, b.func, b.txn, number, got)
  {
  }

  lemma DoesNotContinue(a: Command, number: nat, k: nat, b: Command, number': nat, max: nat, got: bytes)
    requires b.Sendable() && number' < SEQ_MODULUS && !Continues(a, number, k, b, number')
    ensures Collect(Waiting(a, (number + k) % SEQ_MODULUS, got), FragmentAt(b, 0, number', max)) == Outcome(Idle, [])
  {
  }

  /** The call after an aborted one has another transaction number, so it always loses its first fragment. */
  lemma NextCallDoesNotContinue(a: Command, number: nat, k: nat, b: Command, number': nat)
    requires b.txn == NextTxn(a.txn)
    ensures !Continues(a, number, k, b, number')
  {
  }

  /**
   * A restart of the sender resets both counters. A first send given up after it and the first send after the next
   * restart then have the same numbers, and the second continues the first exactly if a multiple of 32 fragments of
   * the same function had gone out.
   */
  lemma FirstSendsContinueIff(a: Command, k: nat, b: Command)
    requires a.txn == b.txn == NextTxn(0)
    ensures Continues(a, 0, k, b, 0) <==> a.func == b.func && k % SEQ_MODULUS == 0
  {
  }
}
