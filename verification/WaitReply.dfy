/**
 * `wait_reply` of the firmware updater: a parser for the serial format with a 16-byte argument buffer that skips
 * longer frames by counting, and returns at the first intact frame with the command it waits for.
 */
module WaitReply {
  import opened Common
  import opened Bytes
  import SF = SerialFrames

  const ARGS_SIZE: nat := 16
  const LIMIT: nat := 16

  /** Parsing, or with `left` bytes of an oversized frame still to be thrown away. */
  datatype Waiter = At(parser: SF.Parser) | Skipping(left: nat) {
    predicate Ok() {
      match this
      case At(p) => p.Ok(LIMIT)
      case Skipping(n) => 0 < n < 256
    }
  }

  /** The waiter after a byte, and the arguments it returns with, if this byte completed the awaited reply. */
  function Step(wanted: byte, w: Waiter, b: byte): (r: (Waiter, Option<bytes>))
    requires w.Ok()
    ensures r.0.Ok()
    ensures r.1.Some? ==> |r.1.value| <= LIMIT - 2
  {
    match w
    case Skipping(n) => (if n == 1 then At(SF.Hunt) else Skipping(n - 1), None)
    case At(p) =>
      if p.Length? && b > LIMIT then (Skipping(b), None)
      else
        var o := SF.Step(LIMIT, p, b);
        (At(o.parser), if o.packets != [] && o.packets[0].cmd == wanted then Some(o.packets[0].data) else None)
  }

  /** The answer and how many bytes were read for it. */
  datatype Reply = Reply(args: Option<bytes>, consumed: nat)

  function Await(wanted: byte, w: Waiter, s: bytes): (r: Reply)
    requires w.Ok()
    ensures r.consumed <= |s|
    decreases |s|
  {
    if s == [] then Reply(None, 0) else
      var (w', args) := Step(wanted, w, s[0]);
      if args.Some? then Reply(args, 1)
      else
        var r := Await(wanted, w', s[1..]);
        Reply(r.args, 1 + r.consumed)
  }

  /** The local variables of `wait_reply`. */
  class Reader {
    var state: nat
    var id: byte
    var len: byte
    var cmd: byte
    const args: array<byte>
    var argIdx: nat
    var checksum: nat
    var skipRemaining: nat

    constructor ()
      ensures Valid() && fresh(args) && Waiting() == At(SF.Hunt)
    {
      state, id, len, cmd, argIdx, checksum, skipRemaining := 0, 0, 0, 0, 0, 0, 0;
      args := new byte[ARGS_SIZE](_ => 0);
    }

    /** The frame collected so far; only meaningful from state 5 on. */
    function Frame(): bytes
      requires argIdx <= args.Length
      reads this, args
    {
      [id, len, cmd] + args[..argIdx]
    }

    predicate Valid()
      reads this, args
    {
      && args.Length == ARGS_SIZE && state <= 6 && skipRemaining < 256 && argIdx <= ARGS_SIZE
      && (skipRemaining > 0 ==> state == 0)
      && (state == 3 ==> checksum == id)
      && (state >= 4 ==> 2 <= len <= LIMIT)
      && (state == 4 ==> argIdx == 0 && checksum == id + len as int)
      && (state == 5 ==> argIdx < len - 2)
      && (state == 6 ==> argIdx == len - 2)
      && (state >= 5 ==> checksum == SF.Sum(Frame()))
    }

    ghost function Waiting(): (w: Waiter)
      requires Valid()
      reads this, args
      ensures w.Ok()
    {
      if skipRemaining > 0 then Skipping(skipRemaining)
      else At(match state
        case 0 => SF.Hunt
        case 1 => SF.Sync
        case 2 => SF.Id
        case 3 => SF.Length(id)
        case 4 => SF.Command(id, len)
        case 5 => SF.Data(Frame())
        case _ => SF.Check(Frame()))
    }

    method StoreArgument(ch: byte)
      requires Valid() && state == 5
      modifies this`argIdx, this`checksum, args
      ensures argIdx == old(argIdx) + 1 && checksum == SF.Sum(Frame()) && Frame() == old(Frame()) + [ch]
    {
      ghost var f := Frame();
      if argIdx < 16 {
        args[argIdx] := ch;
      }
      argIdx := argIdx + 1;
      checksum := checksum + ch;
      assert Frame() == f + [ch] && (f + [ch])[..|f|] == f;
    }

    /** The loop body: one byte, and the arguments if it completes the awaited reply. */
    method ReadByte(wanted: byte, ch: byte) returns (r: Option<bytes>)
      requires Valid()
      modifies this, args
      ensures Valid()
      ensures (Waiting(), r) == Step(wanted, old(Waiting()), ch)
    {
      hide SF.Sum;
      r := None;
      if skipRemaining > 0 {
        skipRemaining := skipRemaining - 1;
        return;
      }
      match state
      case 0 => state := if ch == 0xFF then 1 else 0;
      case 1 => state := if ch == 0xFF then 2 else 0;
      case 2 =>
        id := ch;
        checksum := ch;
        state := 3;
      case 3 =>
        len := ch;
        checksum := checksum + ch;
        argIdx := 0;
        if len < 2 {
          state := 0;
        } else if len > 16 {
          skipRemaining := len;
          state := 0;
        } else {
          state := 4;
        }
      case 4 =>
        cmd := ch;
        checksum := checksum + ch;
        state := if len > 2 then 5 else 6;
        SumOfThree(id, len, cmd);
        assert Frame() == [id, len, cmd];
      case 5 =>
        StoreArgument(ch);
        if argIdx >= len - 2 {
          state := 6;
        }
      case _ =>
        assert Frame()[3..] == args[..argIdx];
        state := 0;
        if ch == 255 - checksum % 256 && cmd == wanted {
          var n := if argIdx > 16 then 16 else argIdx;
          r := Some(args[..n]);
        }
    }
  }

  /** `wait_reply` over the bytes that arrive before the timeout. */
  method WaitForReply(wanted: byte, s: bytes) returns (r: Reply)
    ensures r == Await(wanted, At(SF.Hunt), s)
  {
    var reader := new Reader();
    var i := 0;
    while i < |s|
      invariant i <= |s| && reader.Valid() && fresh(reader) && fresh(reader.args)
      invariant Await(wanted, At(SF.Hunt), s) == Later(Await(wanted, reader.Waiting(), s[i..]), i)
    {
      AwaitNext(wanted, reader.Waiting(), s, i);
      var args := reader.ReadByte(wanted, s[i]);
      i := i + 1;
      if args.Some? {
        return Reply(args, i);
      }
    }
    assert s[|s|..] == [];
    return Reply(None, |s|);
  }

  function Later(r: Reply, n: nat): Reply {
    Reply(r.args, n + r.consumed)
  }

  lemma AwaitNext(wanted: byte, w: Waiter, s: bytes, i: nat)
    requires w.Ok() && i < |s|
    ensures var (w', args) := Step(wanted, w, s[i]);
      Await(wanted, w, s[i..]) ==
        if args.Some? then Reply(args, 1) else Later(Await(wanted, w', s[i + 1..]), 1)
  {
    assert s[i..][0] == s[i] && s[i..][1..] == s[i + 1..];
  }

  lemma SumOfThree(a: byte, b: byte, c: byte)
    ensures SF.Sum([a, b, c]) == a + b as int + c
  {
    assert [a, b, c][..2] == [a, b] && [a, b][..1] == [a] && [a][..0] == [];
    assert SF.Sum([a]) == a;
    assert SF.Sum([a, b]) == a + b as int;
  }

  // ---- whole streams ----

  /** The waiter after reading all of `s`, ignoring that it may already have answered. */
  function After(wanted: byte, w: Waiter, s: bytes): (w': Waiter)
    requires w.Ok()
    ensures w'.Ok()
    decreases |s|
  {
    if s == [] then w else After(wanted, Step(wanted, w, s[0]).0, s[1..])
  }

  lemma {:induction false} AwaitAppend(wanted: byte, w: Waiter, a: bytes, b: bytes)
    requires w.Ok()
    ensures Await(wanted, w, a).args.Some? ==> Await(wanted, w, a + b) == Await(wanted, w, a)
    ensures Await(wanted, w, a).args.None? ==>
      var r := Await(wanted, After(wanted, w, a), b);
      Await(wanted, w, a + b) == Reply(r.args, |a| + r.consumed)
    decreases |a|
  {
    if a == [] {
      assert a + b == b;
    } else {
      assert (a + b)[1..] == a[1..] + b;
      AwaitAppend(wanted, Step(wanted, w, a[0]).0, a[1..], b);
    }
  }

  function Matching(wanted: byte, packets: seq<SF.Packet>): Option<bytes> {
    if packets != [] && packets[0].cmd == wanted then Some(packets[0].data) else None
  }

  /** Inside a short frame the waiter runs the ordinary parser and can answer only at the frame's last byte. */
  lemma {:induction false} RestOfFrame(wanted: byte, p: SF.Parser, s: bytes)
    requires p.Ok(LIMIT) && (p.Command? || p.Data? || p.Check?) && |s| == SF.Distance(LIMIT, p)
    ensures var o := SF.Feed(LIMIT, p, s);
      && o.parser == SF.Hunt && After(wanted, At(p), s) == At(SF.Hunt)
      && Await(wanted, At(p), s) == Reply(Matching(wanted, o.packets), |s|)
    decreases |s|
  {
    var p' := SF.Step(LIMIT, p, s[0]).parser;
    if !p.Check? {
      RestOfFrame(wanted, p', s[1..]);
    } else {
      assert s[1..] == [];
    }
  }

  /** The skip counter consumes exactly its count. */
  lemma {:induction false} SkipsExactly(wanted: byte, s: bytes)
    requires 0 < |s| < 256
    ensures After(wanted, Skipping(|s|), s) == At(SF.Hunt)
    ensures Await(wanted, Skipping(|s|), s) == Reply(None, |s|)
    decreases |s|
  {
    if |s| > 1 {
      SkipsExactly(wanted, s[1..]);
    } else {
      assert s[1..] == [];
    }
  }

  /** The four bytes up to the length decide between parsing and skipping. */
  lemma Opening(wanted: byte, id: byte, len: byte)
    requires len >= 2
    ensures var h, w := [SF.HEADER, SF.HEADER, id, len], if len > LIMIT then Skipping(len) else At(SF.Command(id, len));
      && After(wanted, At(SF.Hunt), h) == w
      && Await(wanted, At(SF.Hunt), h) == Reply(None, 4)
      && (len <= LIMIT ==> SF.Feed(LIMIT, SF.Hunt, h) == SF.Outcome(SF.Command(id, len), []))
  {
    var h := [SF.HEADER, SF.HEADER, id, len];
    var h1, h2, h3 := h[1..], h[2..], h[3..];
    assert h1[1..] == h2 && h2[1..] == h3 && h3[1..] == [] && h1[0] == SF.HEADER && h2[0] == id && h3[0] == len;
    if len <= LIMIT {
      SF.FeedOne(LIMIT, SF.Length(id), len);
      assert h3 == [len];
      assert SF.Feed(LIMIT, SF.Id, h2) == SF.Feed(LIMIT, SF.Length(id), h3);
      assert SF.Feed(LIMIT, SF.Sync, h1) == SF.Feed(LIMIT, SF.Id, h2);
    }
    assert After(wanted, At(SF.Length(id)), h3) == Step(wanted, At(SF.Length(id)), len).0;
    assert Await(wanted, At(SF.Length(id)), h3) == Reply(None, 1);
    assert After(wanted, At(SF.Sync), h1) == After(wanted, At(SF.Id), h2) == After(wanted, At(SF.Length(id)), h3);
    assert Await(wanted, At(SF.Id), h2) == Reply(None, 2);
    assert Await(wanted, At(SF.Sync), h1) == Reply(None, 3);
  }

  /** The reply an item carries: an intact frame, short enough for the buffer, with the awaited command. */
  function ReplyIn(wanted: byte, it: SF.Item): Option<bytes> {
    if it.Frame? && |it.packet.data| <= 14 && it.packet.cmd == wanted then Some(it.packet.data) else None
  }

  lemma ShortFrameIsRead(wanted: byte, it: SF.Item, h: bytes, rest: bytes)
    requires it.Ok(255) && !it.Noise? && it.Wire() == h + rest && 2 + |it.packet.data| <= LIMIT
    requires |h| == 4 && h == [SF.HEADER, SF.HEADER, h[2], 2 + |it.packet.data|] && |rest| == h[3]
    ensures var w := SF.Command(h[2], h[3]);
      && Await(wanted, At(w), rest) == Reply(ReplyIn(wanted, it), |rest|)
      && After(wanted, At(w), rest) == At(SF.Hunt)
  {
    Opening(wanted, h[2], h[3]);
    RestOfFrame(wanted, SF.Command(h[2], h[3]), rest);
    SF.FeedAppend(LIMIT, SF.Hunt, h, rest);
    SF.ItemArrives(LIMIT, it);
    assert SF.Feed(LIMIT, SF.Command(h[2], h[3]), rest).packets == if it.Frame? then [it.packet] else [];
  }

  lemma ItemIsRead(wanted: byte, it: SF.Item)
    requires it.Ok(255)
    ensures Await(wanted, At(SF.Hunt), it.Wire()) == Reply(ReplyIn(wanted, it), |it.Wire()|)
    ensures After(wanted, At(SF.Hunt), it.Wire()) == At(SF.Hunt)
  {
    if it.Noise? {
      NoiseIsRead(wanted, it.bytes);
    } else {
      var s := it.Wire();
      var h, rest := s[..4], s[4..];
      assert h == [SF.HEADER, SF.HEADER, s[2], 2 + |it.packet.data|] && s == h + rest && |rest| == h[3];
      hide SF.Item.Wire, Step, Await, After;
      Opening(wanted, h[2], h[3]);
      AwaitAppend(wanted, At(SF.Hunt), h, rest);
      AfterAppend(wanted, At(SF.Hunt), h, rest);
      if h[3] > LIMIT {
        SkipsExactly(wanted, rest);
      } else {
        ShortFrameIsRead(wanted, it, h, rest);
      }
    }
  }

  lemma {:induction false} AfterAppend(wanted: byte, w: Waiter, a: bytes, b: bytes)
    requires w.Ok()
    ensures After(wanted, w, a + b) == After(wanted, After(wanted, w, a), b)
    decreases |a|
  {
    if a == [] {
      assert a + b == b;
    } else {
      assert (a + b)[1..] == a[1..] + b;
      AfterAppend(wanted, Step(wanted, w, a[0]).0, a[1..], b);
    }
  }

  lemma {:induction false} NoiseIsRead(wanted: byte, s: bytes)
    requires SF.HEADER !in s
    ensures Await(wanted, At(SF.Hunt), s) == Reply(None, |s|) && After(wanted, At(SF.Hunt), s) == At(SF.Hunt)
    decreases |s|
  {
    if s != [] {
      assert s[0] in s;
      NoiseIsRead(wanted, s[1..]);
    }
  }

  /** The first reply among the items, and the bytes up to and including its frame. */
  function FirstReply(wanted: byte, items: seq<SF.Item>): Reply
    requires SF.StreamOk(255, items)
  {
    if items == [] then Reply(None, 0)
    else
      var n := |items[0].Wire()|;
      if ReplyIn(wanted, items[0]).Some? then Reply(ReplyIn(wanted, items[0]), n)
      else
        var r := FirstReply(wanted, items[1..]);
        Reply(r.args, n + r.consumed)
  }

  /**
   * On any stream of frames with length byte 2 to 255, damaged frames and FF-free noise, `wait_reply` returns the
   * arguments of the first intact frame with the awaited command and at most 14 of them, having read exactly up
   * to the end of that frame; it stays aligned across every other item, oversized frames included.
   */
  lemma {:induction false} ReturnsTheFirstReply(wanted: byte, items: seq<SF.Item>)
    requires SF.StreamOk(255, items)
    ensures Await(wanted, At(SF.Hunt), SF.Wire(items)) == FirstReply(wanted, items)
    decreases |items|
  {
    if items != [] {
      ItemIsRead(wanted, items[0]);
      ReturnsTheFirstReply(wanted, items[1..]);
      AwaitAppend(wanted, At(SF.Hunt), items[0].Wire(), SF.Wire(items[1..]));
    }
  }

  lemma FirstReplyNext(wanted: byte, items: seq<SF.Item>)
    requires SF.StreamOk(255, items) && items != []
    ensures SF.StreamOk(255, items[1..])
    ensures FirstReply(wanted, items).args ==
      if ReplyIn(wanted, items[0]).Some? then ReplyIn(wanted, items[0]) else FirstReply(wanted, items[1..]).args
  {
    hide ReplyIn;
  }

  lemma {:induction false} ReplyComesFromAFrame(wanted: byte, items: seq<SF.Item>) returns (k: nat)
    requires SF.StreamOk(255, items)
    ensures FirstReply(wanted, items).args.Some? ==>
      && k < |items| && items[k].Frame? && items[k].packet.cmd == wanted
      && FirstReply(wanted, items).args == Some(items[k].packet.data)
      && forall i :: 0 <= i < k ==> ReplyIn(wanted, items[i]).None?
    decreases |items|
  {
    k := 0;
    if items != [] {
      FirstReplyNext(wanted, items);
      if ReplyIn(wanted, items[0]).None? {
        hide FirstReply, ReplyIn, SF.StreamOk;
        var rest := items[1..];
        var j := ReplyComesFromAFrame(wanted, rest);
        k := j + 1;
        forall i | 0 <= i < k && k < |items| && FirstReply(wanted, items).args.Some?
          ensures ReplyIn(wanted, items[i]).None?
        {
          if i > 0 {
            assert items[i] == rest[i - 1];
          }
        }
      }
    }
  }

  /** The array that every caller passes for the arguments. */
  const CALLER_ARRAY: nat := 8

  /**
   * The arguments of the answer are those of the first frame that answers, and the callers' array holds them exactly
   * if that frame's length byte is at most 10.
   */
  lemma CallersArraySufficesIff(wanted: byte, items: seq<SF.Item>) returns (k: nat)
    requires SF.StreamOk(255, items)
    ensures var r := Await(wanted, At(SF.Hunt), SF.Wire(items));
      r.args.Some? ==>
        && k < |items| && items[k].Frame? && r.args.value == items[k].packet.data
        && (forall i :: 0 <= i < k ==> ReplyIn(wanted, items[i]).None?)
        && (|r.args.value| <= CALLER_ARRAY <==> 2 + |items[k].packet.data| <= 10)
  {
    ReturnsTheFirstReply(wanted, items);
    hide Await, FirstReply, ReplyIn, SF.Wire;
    k := ReplyComesFromAFrame(wanted, items);
  }

  /** A frame with 9 to 14 data bytes and the awaited command is returned, and the callers' array does not hold it. */
  lemma CallersArrayCanBeTooShort(p: SF.Packet)
    requires 8 < |p.data| <= 14
    ensures var r := Await(p.cmd, At(SF.Hunt), SF.Encode(p));
      r == Reply(Some(p.data), 6 + |p.data|) && |r.args.value| > CALLER_ARRAY
  {
    var items := [SF.Frame(p)];
    assert SF.Wire(items) == SF.Encode(p);
    ReturnsTheFirstReply(p.cmd, items);
    assert |SF.Encode(p)| == 6 + |p.data|;
    hide Await, SF.Encode;
  }

  /** The first of `packets` with the awaited command that fits the buffer. */
  function FirstFitting(wanted: byte, packets: seq<SF.Packet>): Option<bytes> {
    if packets == [] then None
    else if packets[0].cmd == wanted && |packets[0].data| <= 14 then Some(packets[0].data)
    else FirstFitting(wanted, packets[1..])
  }

  lemma {:induction false} FirstReplyIsFirstFitting(wanted: byte, items: seq<SF.Item>)
    requires SF.StreamOk(255, items)
    ensures FirstReply(wanted, items).args == FirstFitting(wanted, SF.Intact(items))
    decreases |items|
  {
    hide SF.Item.Wire;
    if items != [] {
      FirstReplyIsFirstFitting(wanted, items[1..]);
      if items[0].Frame? {
        assert SF.Intact(items)[1..] == SF.Intact(items[1..]);
      } else {
        assert SF.Intact(items) == SF.Intact(items[1..]);
      }
    }
  }

  /** The counting parser and the general one agree: the answer is the first fitting packet the other dispatches. */
  lemma AgreesWithTheGeneralParser(wanted: byte, limit: nat, items: seq<SF.Item>)
    requires 2 <= limit <= 255 && SF.StreamOk(limit, items) && SF.StreamOk(255, items)
    ensures Await(wanted, At(SF.Hunt), SF.Wire(items)).args ==
      FirstFitting(wanted, SF.Feed(limit, SF.Hunt, SF.Wire(items)).packets)
  {
    ReturnsTheFirstReply(wanted, items);
    FirstReplyIsFirstFitting(wanted, items);
    SF.StreamArrives(limit, items);
  }
}
