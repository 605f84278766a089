/** Requests go in at one peer's `sendCmd`, messages come out at the other's `parseFrame`, over the raw mailbox. */
module EndToEnd {
  import opened Bytes
  import opened Mailbox
  import opened MailboxMemory
  import opened FrameCodec
  import opened Fragments

  /** Every frame of a conversation has a length the mailbox reader hands on. */
  lemma ConversationIsLegal(c: Config, rs: seq<Request>, txn: byte, number: nat)
    requires c.Valid() && FRAME_OVERHEAD < c.slotSize <= c.bufSize && AllSendable(rs) && number < SEQ_MODULUS
    ensures forall f :: f in EncodeAll(Conversation(rs, txn, number, MaxPayload(c.slotSize))) ==> c.Legal(f)
  {
    hide Conversation, Encode, EncodeAll;
    var fs := Conversation(rs, txn, number, MaxPayload(c.slotSize));
    forall f | f in EncodeAll(fs) ensures c.Legal(f) {
      var i :| 0 <= i < |fs| && EncodeAll(fs)[i] == f;
      assert fs[i] in fs;
    }
  }

  lemma {:induction false} AllLegal(c: Config, posted: seq<bytes>)
    requires forall f :: f in posted ==> c.Legal(f)
    ensures LegalFrames(c, posted) == posted
  {
    if posted != [] {
      AllLegal(c, posted[..|posted| - 1]);
    }
  }

  /** What has been understood from the first frames of a stream is never taken back. */
  lemma ParsedPrefix(frames: seq<bytes>, k: nat)
    requires k <= |frames|
    ensures ParseAll(Idle, frames[..k]).messages <= ParseAll(Idle, frames).messages
  {
    hide ParseAll;
    ParseAllAppend(Idle, frames[..k], frames[k..]);
    assert frames[..k] + frames[k..] == frames;
  }

  lemma {:induction false} UncutCallsAreKept(calls: seq<Call>)
    requires forall i :: 0 <= i < |calls| ==> !calls[i].cut
    ensures Kept(calls) == FramesOf(calls)
  {
    if calls != [] {
      UncutCallsAreKept(calls[..|calls| - 1]);
    }
  }

  /** The accepted calls of `writeHostSlot`, none of them cut off by a restart, are the first frames of `frames`. */
  predicate Sends(calls: seq<Call>, frames: seq<bytes>) {
    FramesOf(calls) <= frames && forall i :: 0 <= i < |calls| ==> !calls[i].cut
  }

  /** The calls a direction's writer makes decide what it posts. */
  lemma PostedAreSent(c: Config, x: Duplex, es: seq<(Direction, Event)>, d: Direction, frames: seq<bytes>)
    requires DuplexOk(c, x) && Initial(c, x.Side(c, d)) && Sends(CallLog(c, x.Side(c, d), EventsOf(d, es)), frames)
    ensures var s := DuplexRun(c, x, es).Side(c, d);
      && s.posted <= frames
      && (s.writer == WIdle ==> |s.posted| == |CallLog(c, x.Side(c, d), EventsOf(d, es))|)
  {
    var own := EventsOf(d, es);
    DirectionsDoNotInterfere(c, x, es, d);
    PostedAreTheAcceptedCalls(c, x.Side(c, d), own);
    UncutCallsAreKept(CallLog(c, x.Side(c, d), own));
    hide CallLog, Kept, FramesOf, DuplexRun, Run, Initial, WellTyped;
  }

  /** Frames posted in the order of `frames`, all legal, are understood in that order. */
  lemma UnderstoodInOrder(c: Config, s: System, frames: seq<bytes>)
    requires s.posted <= frames && |s.fates| <= |s.posted| && forall f :: f in frames ==> c.Legal(f)
    requires Delivered(s.fates) == LegalFrames(c, s.posted[..|s.fates|])
    ensures Delivered(s.fates) == frames[..|s.fates|]
    ensures ParseAll(Idle, Delivered(s.fates)).messages <= ParseAll(Idle, frames).messages
  {
    hide ParseAll;
    var k := |s.fates|;
    AllLegal(c, s.posted[..k]);
    assert s.posted[..k] == frames[..k];
    ParsedPrefix(frames, k);
  }

  /** No call is in progress and nothing is left in the slot. */
  predicate Finished(s: System) {
    s.writer == WIdle && s.slot.meta.state == EMPTY
  }

  /**
   * If the frames a sender's accepted calls write are the first ones of successful, non-nested sends of `rs`, then at
   * every moment, for every interleaving of both directions, the messages understood so far are the first few
   * requests, in order; and once all frames are written and the slot is empty they are all of them.
   */
  lemma RequestsArriveInOrder(
      c: Config, x: Duplex, es: seq<(Direction, Event)>, d: Direction, rs: seq<Request>, txn: byte, number: nat)
    requires DuplexOk(c, x) && Initial(c, x.Side(c, d)) && (d, ReaderRestart) !in es
    requires FRAME_OVERHEAD < c.slotSize <= c.bufSize && AllSendable(rs) && number < SEQ_MODULUS
    requires Sends(CallLog(c, x.Side(c, d), EventsOf(d, es)),
                   EncodeAll(Conversation(rs, txn, number, MaxPayload(c.slotSize))))
    ensures var s, calls := DuplexRun(c, x, es).Side(c, d), CallLog(c, x.Side(c, d), EventsOf(d, es));
      var o := ParseAll(Idle, Delivered(s.fates));
      && o.messages <= MessagesOf(rs)
      && (Finished(s) && |calls| == |Conversation(rs, txn, number, MaxPayload(c.slotSize))| ==>
        o == Outcome(Idle, MessagesOf(rs)))
  {
    hide Conversation, EncodeAll, ParseAll, DuplexRun, EventsOf, Initial, CallLog, FramesOf, Sends, Delivered;
    var s := DuplexRun(c, x, es).Side(c, d);
    var all := EncodeAll(Conversation(rs, txn, number, MaxPayload(c.slotSize)));
    PostedAreSent(c, x, es, d, all);
    DuplexDeliversExactlyOnce(c, x, es, d);
    DeliveredWhenEmpty(c, x, es, d);
    ConversationIsLegal(c, rs, txn, number);
    UnderstoodInOrder(c, s, all);
    FramesArrive(rs, txn, number, MaxPayload(c.slotSize));
    if |s.posted| == |all| && s.slot.meta.state == EMPTY {
      assert all[..|all|] == all;
    }
  }

  lemma DeliveredWhenEmpty(c: Config, x: Duplex, es: seq<(Direction, Event)>, d: Direction)
    requires DuplexOk(c, x) && Initial(c, x.Side(c, d))
    ensures var s := DuplexRun(c, x, es).Side(c, d); s.slot.meta.state == EMPTY ==> |s.fates| == |s.posted|
  {
    DirectionsDoNotInterfere(c, x, es, d);
    hide DuplexRun, Run, Initial, WellTyped;
    EveryFrameHasItsFate(c, x.Side(c, d), EventsOf(d, es));
  }
}
