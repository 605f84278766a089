/** The packet loop of the firmware update: a padded, numbered cut of the image, and what it does to the flash. */
module Firmware {
  import opened Bytes
  import SF = SerialFrames

  const PKT_SIZE: nat := 128
  const PAD: byte := 0xFF
  const INDEX_COUNT: nat := 0x1_0000

  function Total(size: nat): nat {
    (size + PKT_SIZE - 1) / PKT_SIZE
  }

  /** A length rounded up to whole 32-bit words. */
  function Padded(n: nat): (p: nat)
    ensures n <= p <= n + 3 && p % 4 == 0
    ensures n <= PKT_SIZE ==> p <= PKT_SIZE
  {
    if n % 4 != 0 then n + (4 - n % 4) else n
  }

  function Padding(n: nat): (s: bytes)
    ensures |s| == n && forall i :: 0 <= i < n ==> s[i] == PAD
  {
    seq(n, _ => PAD)
  }

  /** The part of the image that packet `i` carries. */
  function Chunk(image: bytes, i: nat): (c: bytes)
    requires i * PKT_SIZE <= |image|
    ensures |c| == Min(PKT_SIZE, |image| - i * PKT_SIZE)
  {
    image[i * PKT_SIZE..i * PKT_SIZE + Min(PKT_SIZE, |image| - i * PKT_SIZE)]
  }

  /** Packet `i`: its 16-bit index, low byte first, and the chunk padded to whole words. */
  function Packet(image: bytes, i: nat): (p: bytes)
    requires i * PKT_SIZE <= |image|
    ensures 2 <= |p| <= 2 + PKT_SIZE && (|p| - 2) % 4 == 0
  {
    var c := Chunk(image, i);
    [i % 256, i / 256 % 256] + (c + Padding(Padded(|c|) - |c|))
  }

  function Percent(i: nat, total: nat): nat
    requires i < total
  {
    (i + 1) * 100 / total
  }

  /** What the first `i` of `total` packets put on the display: every tenth and the last show a percentage. */
  function Shown(i: nat, total: nat): seq<nat>
    requires i <= total
  {
    if i == 0 then []
    else Shown(i - 1, total) + if (i - 1) % 10 == 0 || i == total then [Percent(i - 1, total)] else []
  }

  predicate Rising(s: seq<nat>, top: nat) {
    (forall a, b :: 0 <= a < b < |s| ==> s[a] <= s[b]) && forall a :: 0 <= a < |s| ==> s[a] <= top
  }

  lemma RisingGoesOn(s: seq<nat>, low: nat, top: nat)
    requires Rising(s, low) && low <= top
    ensures Rising(s, top) && Rising(s + [top], top)
  {
  }

  /** They never fall and end with 100. */
  lemma {:induction false} ShownGrows(i: nat, total: nat)
    requires i <= total
    ensures Rising(Shown(i, total), if i == 0 then 0 else Percent(i - 1, total))
    ensures i == total > 0 ==> Shown(i, total) != [] && Last(Shown(i, total)) == 100 == Percent(i - 1, total)
  {
    if i > 0 {
      PercentGrows(i - 1, total);
      ShownGrows(i - 1, total);
      var low := if i == 1 then 0 else Percent(i - 2, total);
      assert low <= Percent(i - 1, total);
      hide Percent, Rising;
      RisingGoesOn(Shown(i - 1, total), low, Percent(i - 1, total));
      assert Shown(i - 1, total) + [] == Shown(i - 1, total);
    }
  }

  /** The ones shown before the last packet are those of packets 0, 10, 20 and so on. */
  lemma {:induction false} ShownIs(i: nat, total: nat, a: nat)
    requires 10 * a < i <= total
    ensures |Shown(i, total)| > a && Shown(i, total)[a] == Percent(10 * a, total)
  {
    TensShown(i - 1, total);
    hide Percent;
    if 10 * a < i - 1 {
      ShownIs(i - 1, total, a);
    }
  }

  lemma {:induction false} TensShown(i: nat, total: nat)
    requires i < total
    ensures |Shown(i, total)| == (i + 9) / 10
  {
    hide Percent;
    if i > 0 {
      TensShown(i - 1, total);
    }
  }

  /** Sends the whole image. `shown` are the percentages put on the display. */
  method SendImage(image: bytes) returns (sent: seq<bytes>, shown: seq<nat>)
    ensures |sent| == Total(|image|)
    ensures forall i :: 0 <= i < |sent| ==> i * PKT_SIZE < |image| && sent[i] == Packet(image, i)
    ensures shown == Shown(|sent|, |sent|)
    ensures forall a, b :: 0 <= a < b < |shown| ==> shown[a] <= shown[b]
    ensures forall a :: 0 <= a < |shown| ==> shown[a] <= 100
    ensures image != [] ==> shown != [] && Last(shown) == 100
  {
    hide Percent, Packet;
    var total := Total(|image|);
    var pkt := new byte[2 + 132](_ => 0);
    sent, shown := [], [];
    for i := 0 to total
      invariant |sent| == i && shown == Shown(i, total)
      invariant forall k :: 0 <= k < i ==> k * PKT_SIZE < |image| && sent[k] == Packet(image, k)
    {
      IndexInImage(|image|, i);
      var len := FillPacket(image, i, pkt);
      sent := sent + [pkt[..len]];
      if i % 10 == 0 || i == total - 1 {
        shown := shown + [Percent(i, total)];
      }
    }
    ShownGrows(total, total);
  }

  /** Packet `i` in the loop's buffer, and how much of the buffer it takes. */
  method FillPacket(image: bytes, i: nat, pkt: array<byte>) returns (len: nat)
    requires i * PKT_SIZE < |image| && pkt.Length == 2 + 132
    modifies pkt
    ensures len <= pkt.Length && pkt[..len] == Packet(image, i)
  {
    hide Packet;
    var offset := i * PKT_SIZE;
    var chunkLen := PKT_SIZE;
    if offset + chunkLen > |image| {
      chunkLen := |image| - offset;
    }
    var padded := chunkLen;
    if padded % 4 != 0 {
      padded := padded + (4 - padded % 4);
    }
    assert padded == Padded(chunkLen) && chunkLen == |Chunk(image, i)|;
    hide Padded;
    pkt[0] := i % 256;
    pkt[1] := i / 256 % 256;
    forall j | 0 <= j < chunkLen {
      pkt[2 + j] := image[offset + j];
    }
    forall j | chunkLen <= j < padded {
      pkt[2 + j] := PAD;
    }
    PacketBytes(image, i, pkt[..2 + padded]);
    len := 2 + padded;
  }

  lemma PacketBytes(image: bytes, i: nat, p: bytes)
    requires i * PKT_SIZE < |image|
    requires var c := Chunk(image, i);
      && |p| == 2 + Padded(|c|) && p[0] == i % 256 && p[1] == i / 256 % 256
      && (forall k :: 2 <= k < 2 + |c| ==> p[k] == c[k - 2])
      && (forall k :: 2 + |c| <= k < |p| ==> p[k] == PAD)
    ensures p == Packet(image, i)
  {
  }

  lemma IndexInImage(size: nat, i: nat)
    requires i < Total(size)
    ensures i * PKT_SIZE < size
    ensures i + 1 == Total(size) <==> size <= (i + 1) * PKT_SIZE
  {
  }

  lemma PercentGrows(i: nat, total: nat)
    requires i < total
    ensures Percent(i, total) <= 100
    ensures i > 0 ==> Percent(i - 1, total) <= Percent(i, total)
    ensures i + 1 == total ==> Percent(i, total) == 100
  {
    DivMonotone((i + 1) * 100, total * 100, total);
    DivExact(100, total);
    DivMonotone(i * 100, (i + 1) * 100, total);
  }

  lemma DivExact(a: nat, d: nat)
    requires d > 0
    ensures d * a / d == a
  {
    MulCancels(d, a, d * a / d + 1);
    MulCancels(d, d * a / d, a + 1);
  }

  lemma DivMonotone(a: nat, b: nat, d: nat)
    requires a <= b && d > 0
    ensures a / d <= b / d
  {
    assert d * (a / d) <= a <= b < d * (b / d + 1);
    MulCancels(d, a / d, b / d + 1);
  }

  lemma MulCancels(d: nat, x: nat, y: nat)
    requires d * x < d * y
    ensures x < y
  {
  }

  // ---- what the packets do to the flash ----

  function Index(p: bytes): (i: nat)
    requires |p| >= 2
    ensures i < INDEX_COUNT
  {
    p[0] + 256 * p[1] as int
  }

  /** The bootloader's side: the payload goes to the packet's index times the packet size. */
  function Program(flash: bytes, p: bytes): (r: bytes)
    requires 2 <= |p| <= 2 + PKT_SIZE && |flash| >= INDEX_COUNT * PKT_SIZE
    ensures |r| == |flash|
  {
    Splice(flash, Index(p) * PKT_SIZE, p[2..])
  }

  function ProgramFirst(flash: bytes, image: bytes, n: nat): (r: bytes)
    requires |flash| >= INDEX_COUNT * PKT_SIZE && n <= Total(|image|)
    ensures |r| == |flash|
  {
    if n == 0 then flash
    else
      IndexInImage(|image|, n - 1);
      Program(ProgramFirst(flash, image, n - 1), Packet(image, n - 1))
  }

  /** The image as it should stand in flash: followed by at most three padding bytes. */
  function Written(image: bytes): (w: bytes)
    ensures image <= w && |w| <= |image| + 3 && forall i :: |image| <= i < |w| ==> w[i] == PAD
  {
    image + Padding(Padded(|image|) - |image|)
  }

  lemma IndexIsRecovered(image: bytes, i: nat)
    requires i * PKT_SIZE <= |image|
    ensures Index(Packet(image, i)) == i % INDEX_COUNT
  {
    var p := Packet(image, i);
    assert p[0] == i % 256 && p[1] == i / 256 % 256;
    hide Packet;
    LowAndHigh(i);
  }

  lemma LowAndHigh(i: nat)
    ensures i % 256 + 256 * (i / 256 % 256) == i % INDEX_COUNT
  {
  }

  lemma PaddedSplits(size: nat, i: nat)
    requires i * PKT_SIZE <= size
    ensures Padded(size) - i * PKT_SIZE == Padded(size - i * PKT_SIZE)
  {
  }

  /** Where packet `i` begins and ends within the padded image. */
  lemma PayloadBounds(image: bytes, i: nat)
    requires i < Total(|image|)
    ensures i * PKT_SIZE < |image|
    ensures var end := i * PKT_SIZE + |Packet(image, i)| - 2;
      if i + 1 == Total(|image|) then end == |Written(image)| else end == (i + 1) * PKT_SIZE <= |image|
  {
    IndexInImage(|image|, i);
    PaddedSplits(|image|, i);
  }

  /** A packet carries exactly its stretch of the padded image. */
  lemma PayloadIsWritten(image: bytes, i: nat)
    requires i < Total(|image|)
    ensures i * PKT_SIZE < |image| && i * PKT_SIZE + |Packet(image, i)| - 2 <= |Written(image)|
    ensures Packet(image, i)[2..] == Written(image)[i * PKT_SIZE..i * PKT_SIZE + |Packet(image, i)| - 2]
  {
    PayloadBounds(image, i);
    var at, c, d := i * PKT_SIZE, Chunk(image, i), Packet(image, i)[2..];
    assert d == c + Padding(Padded(|c|) - |c|);
    var want := Written(image)[at..at + |d|];
    forall k | 0 <= k < |d| ensures d[k] == want[k] {
      assert want[k] == Written(image)[at + k];
      if k < |c| {
        assert c[k] == image[at + k];
      }
    }
  }

  /** Writing the next stretch of `w` behind those already in place. */
  lemma BlockStep(r: bytes, w: bytes, flash: bytes, at: nat, d: bytes)
    requires |r| == |flash| && at + |d| <= |w| && at + |d| <= |r|
    requires r[..at] == w[..at] && r[at..] == flash[at..] && d == w[at..at + |d|]
    ensures Splice(r, at, d)[..at + |d|] == w[..at + |d|]
    ensures Splice(r, at, d)[at + |d|..] == flash[at + |d|..]
  {
    var r' := Splice(r, at, d);
    assert r'[..at + |d|] == r[..at] + d;
    assert w[..at] + w[at..at + |d|] == w[..at + |d|];
    assert r'[at + |d|..] == r[at..][|d|..];
    assert flash[at..][|d|..] == flash[at + |d|..];
  }

  /** Bytes of the padded image that the first `n` packets carry. */
  function Covered(image: bytes, n: nat): nat {
    Min(n * PKT_SIZE, |Written(image)|)
  }

  lemma CoveredGrows(image: bytes, i: nat)
    requires i < Total(|image|)
    ensures i * PKT_SIZE <= |image|
    ensures Covered(image, i) == i * PKT_SIZE && Covered(image, i + 1) == i * PKT_SIZE + |Packet(image, i)| - 2
  {
    PayloadBounds(image, i);
    IndexInImage(|image|, i);
  }

  /** The first `n` packets write exactly the first `n` blocks; everything behind them is untouched. */
  lemma {:induction false} FirstBlocks(flash: bytes, image: bytes, n: nat)
    requires |flash| >= INDEX_COUNT * PKT_SIZE && n <= Total(|image|) <= INDEX_COUNT
    ensures var r, w, end := ProgramFirst(flash, image, n), Written(image), Covered(image, n);
      end <= |flash| && r[..end] == w[..end] && r[end..] == flash[end..]
  {
    hide ProgramFirst, Packet, Written, Splice, Covered;
    if n == 0 {
      NothingProgrammed(flash, image);
    } else {
      var i := n - 1;
      FirstBlocks(flash, image, i);
      CoveredGrows(image, i);
      PayloadIsWritten(image, i);
      PacketFitsFlash(flash, image, i);
      ProgramNext(flash, image, i);
      BlockStep(ProgramFirst(flash, image, i), Written(image), flash, i * PKT_SIZE, Packet(image, i)[2..]);
    }
  }

  lemma NothingProgrammed(flash: bytes, image: bytes)
    requires |flash| >= INDEX_COUNT * PKT_SIZE
    ensures ProgramFirst(flash, image, 0) == flash && Covered(image, 0) == 0
  {
  }

  lemma PacketFitsFlash(flash: bytes, image: bytes, i: nat)
    requires |flash| >= INDEX_COUNT * PKT_SIZE && i < Total(|image|) && i < INDEX_COUNT
    ensures i * PKT_SIZE <= |image| && i * PKT_SIZE + |Packet(image, i)| - 2 <= |flash|
    ensures Index(Packet(image, i)) == i
  {
    IndexInImage(|image|, i);
    IndexIsRecovered(image, i);
  }

  lemma ProgramNext(flash: bytes, image: bytes, i: nat)
    requires |flash| >= INDEX_COUNT * PKT_SIZE && i < Total(|image|) && i < INDEX_COUNT
    requires i * PKT_SIZE <= |image| && i * PKT_SIZE + |Packet(image, i)| - 2 <= |flash|
    requires Index(Packet(image, i)) == i
    ensures ProgramFirst(flash, image, i + 1) ==
      Splice(ProgramFirst(flash, image, i), i * PKT_SIZE, Packet(image, i)[2..])
  {
    hide Splice, Packet, Index, Total;
  }

  lemma AllCovered(image: bytes)
    ensures Covered(image, Total(|image|)) == |Written(image)|
  {
    if image != [] {
      CoveredGrows(image, Total(|image|) - 1);
      PayloadBounds(image, Total(|image|) - 1);
    }
  }

  lemma SpliceOfPrefix(flash: bytes, r: bytes, w: bytes)
    requires |r| == |flash| && |w| <= |flash| && r[..|w|] == w && r[|w|..] == flash[|w|..]
    ensures r == Splice(flash, 0, w)
  {
    assert r == r[..|w|] + r[|w|..];
    assert Splice(flash, 0, w) == w + flash[|w|..];
  }

  /** The whole transfer writes the padded image to the start of the flash and nothing else. */
  lemma ImageIsRebuilt(flash: bytes, image: bytes)
    requires |flash| >= INDEX_COUNT * PKT_SIZE && Total(|image|) <= INDEX_COUNT
    ensures |Written(image)| <= |flash|
    ensures ProgramFirst(flash, image, Total(|image|)) == Splice(flash, 0, Written(image))
  {
    hide *;
    var r, w := ProgramFirst(flash, image, Total(|image|)), Written(image);
    FirstBlocks(flash, image, Total(|image|));
    AllCovered(image);
    assert w[..|w|] == w;
    SpliceOfPrefix(flash, r, w);
  }

  lemma ProgramStaysBelow(flash: bytes, p: bytes)
    requires |flash| >= INDEX_COUNT * PKT_SIZE && 2 <= |p| <= 2 + PKT_SIZE
    ensures Program(flash, p)[INDEX_COUNT * PKT_SIZE..] == flash[INDEX_COUNT * PKT_SIZE..]
  {
    SpliceBelow(flash, Index(p) * PKT_SIZE, p[2..], INDEX_COUNT * PKT_SIZE);
  }

  lemma ProgramUnfolds(flash: bytes, image: bytes, n: nat)
    requires |flash| >= INDEX_COUNT * PKT_SIZE && 0 < n <= Total(|image|)
    ensures (n - 1) * PKT_SIZE < |image|
    ensures ProgramFirst(flash, image, n) == Program(ProgramFirst(flash, image, n - 1), Packet(image, n - 1))
  {
    IndexInImage(|image|, n - 1);
    hide Packet, Program;
  }

  /** The 16-bit index reaches the first 8 MiB only: no packet of any image touches what lies behind. */
  lemma {:induction false} BeyondTheIndexNothingIsWritten(flash: bytes, image: bytes, n: nat)
    requires |flash| >= INDEX_COUNT * PKT_SIZE && n <= Total(|image|)
    ensures ProgramFirst(flash, image, n)[8_388_608..] == flash[8_388_608..]
  {
    assert INDEX_COUNT * PKT_SIZE == 8_388_608;
    hide *;
    if n == 0 {
      NothingProgrammed(flash, image);
    } else {
      ProgramUnfolds(flash, image, n);
      BeyondTheIndexNothingIsWritten(flash, image, n - 1);
      ProgramStaysBelow(ProgramFirst(flash, image, n - 1), Packet(image, n - 1));
    }
  }

  lemma SpliceBelow(mem: bytes, at: nat, d: bytes, from: nat)
    requires at + |d| <= from <= |mem|
    ensures Splice(mem, at, d)[from..] == mem[from..]
  {
  }

  /**
   * The transfer is exact if and only if the image has at most 65536 packets (unless the flash already held the
   * byte that the first unreachable packet should have brought).
   */
  lemma RebuiltExactlyWhenIndexed(flash: bytes, image: bytes)
    requires |flash| >= INDEX_COUNT * PKT_SIZE && |flash| >= |image|
    requires Total(|image|) > INDEX_COUNT ==>
      |image| > INDEX_COUNT * PKT_SIZE && flash[INDEX_COUNT * PKT_SIZE] != image[INDEX_COUNT * PKT_SIZE]
    ensures ProgramFirst(flash, image, Total(|image|))[..|image|] == image <==> Total(|image|) <= INDEX_COUNT
  {
    var r, at := ProgramFirst(flash, image, Total(|image|)), INDEX_COUNT * PKT_SIZE;
    if Total(|image|) <= INDEX_COUNT {
      ImageIsRebuilt(flash, image);
    } else {
      BeyondTheIndexNothingIsWritten(flash, image, Total(|image|));
      hide ProgramFirst;
      assert r[at] == r[at..][0] == flash[at..][0] == flash[at];
      assert r[..|image|][at] == r[at];
    }
  }

  // ---- over the serial link ----

  const CMD_FW_DATA: byte := 92

  function FirstFrames(image: bytes, n: nat): (items: seq<SF.Item>)
    requires n <= Total(|image|)
    ensures |items| == n && SF.StreamOk(2 + 2 + PKT_SIZE, items)
  {
    if n == 0 then []
    else
      IndexInImage(|image|, n - 1);
      FirstFrames(image, n - 1) + [SF.Frame(SF.Packet(0xFF, CMD_FW_DATA, Packet(image, n - 1)))]
  }

  /** The bootloader programs every data packet its parser dispatches. */
  function ProgramAll(flash: bytes, packets: seq<SF.Packet>): (r: bytes)
    requires |flash| >= INDEX_COUNT * PKT_SIZE
    requires forall k :: 0 <= k < |packets| ==> 2 <= |packets[k].data| <= 2 + PKT_SIZE
    ensures |r| == |flash|
  {
    if packets == [] then flash
    else Program(ProgramAll(flash, packets[..|packets| - 1]), Last(packets).data)
  }

  lemma {:induction false} FramesCarryThePackets(image: bytes, n: nat)
    requires n <= Total(|image|)
    ensures var ps := SF.Intact(FirstFrames(image, n));
      |ps| == n && forall k :: 0 <= k < n ==>
        k * PKT_SIZE <= |image| && ps[k] == SF.Packet(0xFF, 92, Packet(image, k))
  {
    hide Packet;
    if n > 0 {
      FramesCarryThePackets(image, n - 1);
      IndexInImage(|image|, n - 1);
      IntactAppend(FirstFrames(image, n - 1), SF.Frame(SF.Packet(0xFF, 92, Packet(image, n - 1))));
    }
  }

  lemma {:induction false} IntactAppend(items: seq<SF.Item>, it: SF.Item)
    ensures SF.Intact(items + [it]) == SF.Intact(items) + if it.Frame? then [it.packet] else []
    decreases |items|
  {
    if items == [] {
      assert [] + [it] == [it];
    } else {
      var all, head := items + [it], if items[0].Frame? then [items[0].packet] else [];
      assert all[1..] == items[1..] + [it] && all[0] == items[0];
      IntactAppend(items[1..], it);
      assert SF.Intact(all) == head + SF.Intact(all[1..]);
      assert SF.Intact(items) == head + SF.Intact(items[1..]);
      hide SF.Intact;
      assert head + (SF.Intact(items[1..]) + if it.Frame? then [it.packet] else [])
          == head + SF.Intact(items[1..]) + if it.Frame? then [it.packet] else [];
    }
  }

  lemma {:induction false} ProgramAllIsProgramFirst(flash: bytes, image: bytes, ps: seq<SF.Packet>)
    requires |flash| >= INDEX_COUNT * PKT_SIZE && |ps| <= Total(|image|)
    requires forall k :: 0 <= k < |ps| ==> 2 <= |ps[k].data| <= 2 + PKT_SIZE
    requires forall k :: 0 <= k < |ps| ==>
      k * PKT_SIZE <= |image| && ps[k] == SF.Packet(0xFF, 92, Packet(image, k))
    ensures ProgramAll(flash, ps) == ProgramFirst(flash, image, |ps|)
  {
    hide Packet, Program;
    if ps != [] {
      ProgramAllIsProgramFirst(flash, image, ps[..|ps| - 1]);
    }
  }

  /** Programming the packets leaves the padded image at the start of the flash, and nothing else. */
  predicate Rebuild(flash: bytes, image: bytes, packets: seq<SF.Packet>) {
    && |flash| >= INDEX_COUNT * PKT_SIZE
    && (forall k :: 0 <= k < |packets| ==> 2 <= |packets[k].data| <= 2 + PKT_SIZE)
    && |Written(image)| <= |flash|
    && ProgramAll(flash, packets) == Splice(flash, 0, Written(image))
  }

  lemma CarriedPacketsRebuild(flash: bytes, image: bytes, ps: seq<SF.Packet>)
    requires |flash| >= INDEX_COUNT * PKT_SIZE && |ps| == Total(|image|) <= INDEX_COUNT
    requires forall k :: 0 <= k < |ps| ==> 2 <= |ps[k].data| <= 2 + PKT_SIZE
    requires forall k :: 0 <= k < |ps| ==>
      k * PKT_SIZE <= |image| && ps[k] == SF.Packet(0xFF, 92, Packet(image, k))
    ensures Rebuild(flash, image, ps)
  {
    hide Packet, ProgramAll, ProgramFirst, Written, Total, Program;
    ImageIsRebuilt(flash, image);
    ProgramAllIsProgramFirst(flash, image, ps);
  }

  lemma PacketsRebuild(flash: bytes, image: bytes)
    requires |flash| >= INDEX_COUNT * PKT_SIZE && Total(|image|) <= INDEX_COUNT
    ensures Rebuild(flash, image, SF.Intact(FirstFrames(image, Total(|image|))))
  {
    var ps := SF.Intact(FirstFrames(image, Total(|image|)));
    FramesCarryThePackets(image, Total(|image|));
    hide FirstFrames, Packet, ProgramAll, ProgramFirst, Written, Total, SF.Intact, Program;
    forall k | 0 <= k < |ps| ensures 2 <= |ps[k].data| <= 2 + PKT_SIZE {
      assert ps[k] == SF.Packet(0xFF, 92, Packet(image, k));
    }
    CarriedPacketsRebuild(flash, image, ps);
  }

  /**
   * From image to flash: whatever parser of the serial format sits at the other end, if it takes frames of 130
   * data bytes, then programming what it dispatches rebuilds the image.
   */
  lemma TransferOverTheLink(flash: bytes, image: bytes, limit: nat)
    requires |flash| >= INDEX_COUNT * PKT_SIZE && Total(|image|) <= INDEX_COUNT && 4 + PKT_SIZE <= limit <= 255
    ensures var items := FirstFrames(image, Total(|image|));
      SF.StreamOk(255, items) && Rebuild(flash, image, SF.Feed(limit, SF.Hunt, SF.Wire(items)).packets)
  {
    var items := FirstFrames(image, Total(|image|));
    FramesAreSendable(image, Total(|image|), limit);
    hide FirstFrames, Rebuild, Total, SF.StreamOk, SF.Wire, SF.Feed, SF.Intact;
    SF.StreamArrives(limit, items);
    PacketsRebuild(flash, image);
  }

  lemma FramesAreSendable(image: bytes, n: nat, limit: nat)
    requires n <= Total(|image|) && 4 + PKT_SIZE <= limit <= 255
    ensures SF.StreamOk(limit, FirstFrames(image, n)) && SF.StreamOk(255, FirstFrames(image, n))
  {
    hide FirstFrames, Total;
  }
}
