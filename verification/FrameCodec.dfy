/** Protocol v2 frames as `buildFrame` writes them and `parseFrame` takes them apart. */
module FrameCodec {
  import opened Common
  import opened Bytes

  const FRAME_H0: byte := 0xAA
  const FRAME_H1: byte := 0x55
  const FRAME_OVERHEAD: nat := 8
  const SEQ_MODULUS: nat := 32

  /** The fields a frame carries. `kind` is 0..3, the two top bits of the control byte. */
  datatype Fragment = Fragment(kind: nat, continuation: bool, number: nat, func: byte, txn: byte, payload: bytes) {
    predicate Encodable() {
      kind < 4 && number < SEQ_MODULUS && |payload| < 0x1_0000
    }
  }

  /** Control byte: kind in bits 7-6, continuation in bit 5, sequence number in bits 4-0 (disjoint, so `|` is `+`). */
  function Ctrl(kind: nat, continuation: bool, number: nat): byte
    requires kind < 4 && number < SEQ_MODULUS
  {
    kind * 64 + (if continuation then 32 else 0) + number
  }

  function KindOf(ctrl: byte): (k: nat)
    ensures k < 4
  {
    ctrl / 64
  }

  predicate ContinuationOf(ctrl: byte) {
    ctrl / 32 % 2 == 1
  }

  function NumberOf(ctrl: byte): (n: nat)
    ensures n < SEQ_MODULUS
  {
    ctrl % 32
  }

  lemma CtrlRoundTrip(kind: nat, continuation: bool, number: nat)
    requires kind < 4 && number < SEQ_MODULUS
    ensures var c := Ctrl(kind, continuation, number);
      KindOf(c) == kind && ContinuationOf(c) == continuation && NumberOf(c) == number
  {
  }

  /** The bytes the XOR covers: length, control, function, transaction, payload. */
  function Body(f: Fragment): (body: bytes)
    requires f.Encodable()
    ensures |body| == 5 + |f.payload|
  {
    var n := |f.payload|;
    [Hi(n), Lo(n), Ctrl(f.kind, f.continuation, f.number), f.func, f.txn] + f.payload
  }

  /** `buildFrame`: header, body, XOR of the body. */
  function Encode(f: Fragment): (frame: bytes)
    requires f.Encodable()
    ensures |frame| == FRAME_OVERHEAD + |f.payload|
  {
    [FRAME_H0, FRAME_H1] + Body(f) + [XorAll(Body(f))]
  }

  /** The checks of `parseFrame`: length, header, announced length, XOR. */
  predicate Intact(frame: bytes) {
    && FRAME_OVERHEAD <= |frame| && frame[0] == FRAME_H0 && frame[1] == FRAME_H1
    && var n := Join(frame[2], frame[3]);
      FRAME_OVERHEAD + n <= |frame| && XorAll(frame[2..7 + n]) == frame[7 + n]
  }

  /** The fields of an intact frame; None is a frame that is dropped. */
  function Decode(frame: bytes): (r: Option<Fragment>)
    ensures r.Some? ==> r.value.Encodable() && FRAME_OVERHEAD + |r.value.payload| <= |frame|
  {
    if !Intact(frame) then None else
      var c, n := frame[4], Join(frame[2], frame[3]);
      Some(Fragment(KindOf(c), ContinuationOf(c), NumberOf(c), frame[5], frame[6], frame[7..7 + n]))
  }

  lemma EncodedBytes(f: Fragment)
    requires f.Encodable()
    ensures var e, n := Encode(f), |f.payload|;
      && e[0] == FRAME_H0 && e[1] == FRAME_H1 && e[2] == Hi(n) && e[3] == Lo(n)
      && e[4] == Ctrl(f.kind, f.continuation, f.number) && e[5] == f.func && e[6] == f.txn
      && e[2..7 + n] == Body(f) && e[7..7 + n] == f.payload && e[7 + n] == XorAll(Body(f))
  {
    var e, n := Encode(f), |f.payload|;
    assert forall i :: 0 <= i < 5 + n ==> e[2 + i] == Body(f)[i];
  }

  /** What was built is what is parsed. */
  lemma DecodeEncode(f: Fragment)
    requires f.Encodable()
    ensures Decode(Encode(f)) == Some(f)
  {
    EncodedBytes(f);
    JoinSplit(|f.payload|);
    CtrlRoundTrip(f.kind, f.continuation, f.number);
  }
}
