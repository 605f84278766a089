/** The camera's colour report: groups of blobs by colour name, and how the grabber picks its block from it. */
module ColorReport {
  import opened Common
  import opened Bytes

  const MAX_NAME := 31
  const MAX_WIDTH := 280
  const MAX_HEIGHT := 200

  type uint16 = n: nat | n < 0x1_0000

  datatype Blob = Blob(cx: uint16, cy: uint16, w: uint16, h: uint16, angle: uint16)

  datatype Group = Group(name: bytes, blobs: seq<Blob>)

  /** Where the block is in the picture. */
  datatype Spot = Spot(cx: nat, cy: nat)

  // ---- The format ----

  function Word(n: uint16): (b: bytes)
    ensures |b| == 2
  {
    [Hi(n), Lo(n)]
  }

  function BlobBytes(b: Blob): (s: bytes)
    ensures |s| == 10
  {
    Word(b.cx) + Word(b.cy) + Word(b.w) + Word(b.h) + Word(b.angle)
  }

  function BlobsBytes(bs: seq<Blob>): bytes {
    if bs == [] then [] else BlobBytes(bs[0]) + BlobsBytes(bs[1..])
  }

  predicate Encodable(g: Group) {
    |g.name| < 256 && |g.blobs| < 256
  }

  function GroupHead(g: Group): bytes
    requires Encodable(g)
  {
    [|g.name|] + g.name + [|g.blobs|]
  }

  function GroupBytes(g: Group): bytes
    requires Encodable(g)
  {
    GroupHead(g) + BlobsBytes(g.blobs)
  }

  function GroupsBytes(gs: seq<Group>): bytes
    requires forall g :: g in gs ==> Encodable(g)
  {
    if gs == [] then [] else GroupBytes(gs[0]) + GroupsBytes(gs[1..])
  }

  function Encode(gs: seq<Group>): bytes
    requires |gs| < 256 && forall g :: g in gs ==> Encodable(g)
  {
    [|gs|] + GroupsBytes(gs)
  }

  // ---- Which blob is meant ----

  function Lower(c: byte): byte {
    if 'A' as int <= c <= 'Z' as int then c + 32 else c
  }

  /** The characters before the first zero. */
  function CString(s: bytes): bytes {
    if s == [] || s[0] == 0 then [] else [s[0]] + CString(s[1..])
  }

  /** The name as it fits a buffer of 32, against the wanted colour, without regard to case. */
  predicate Matches(color: bytes, name: bytes) {
    var n := CString(name[..Min(|name|, MAX_NAME)]);
    |n| == |color| && forall i :: 0 <= i < |n| ==> Lower(n[i]) == Lower(color[i])
  }

  /** The same character, but for the case of a letter. */
  predicate SameLetter(a: byte, b: byte) {
    a == b || (65 <= a <= 90 && b == a + 32) || (65 <= b <= 90 && a == b + 32)
  }

  lemma LowerIffSameLetter(a: byte, b: byte)
    ensures Lower(a) == Lower(b) <==> SameLetter(a, b)
  {
  }

  /** The string is what stands before the first zero. */
  lemma {:induction false} CStringIs(s: bytes)
    ensures CString(s) <= s && 0 !in CString(s) && (|CString(s)| < |s| ==> s[|CString(s)|] == 0)
  {
    if s != [] && s[0] != 0 {
      CStringIs(s[1..]);
      assert s == [s[0]] + s[1..];
    }
  }

  lemma {:induction false} CStringIsWhole(s: bytes)
    requires 0 !in s
    ensures CString(s) == s
  {
    CStringIs(s);
  }

  /** A name without zeros matches if its first 31 characters are those wanted, whatever their case. */
  lemma MatchesIff(color: bytes, name: bytes)
    requires 0 !in name
    ensures Matches(color, name) <==>
      && |color| == (if |name| < 31 then |name| else 31)
      && forall i :: 0 <= i < |color| ==> SameLetter(name[i], color[i])
  {
    var short := name[..Min(|name|, MAX_NAME)];
    assert forall c :: c in short ==> c in name;
    CStringIsWhole(short);
    forall i | 0 <= i < |short| && |color| == |short|
      ensures Lower(short[i]) == Lower(color[i]) <==> SameLetter(name[i], color[i])
    {
      LowerIffSameLetter(short[i], color[i]);
    }
    hide Lower, SameLetter;
  }

  /** Blobs that fill the picture are not blocks. */
  predicate Plausible(b: Blob) {
    b.w < 280 && b.h < 200
  }

  /** Whichever was found first. */
  function First(found: Option<Spot>, next: Option<Spot>): Option<Spot> {
    if found.Some? then found else next
  }

  function FirstBlob(bs: seq<Blob>): Option<Spot> {
    if bs == [] then None
    else if Plausible(bs[0]) then Some(Spot(bs[0].cx, bs[0].cy))
    else FirstBlob(bs[1..])
  }

  /** The first plausible blob of the wanted colour. */
  function FirstMatch(gs: seq<Group>, color: bytes): Option<Spot> {
    if gs == [] then None
    else First(if Matches(color, gs[0].name) then FirstBlob(gs[0].blobs) else None, FirstMatch(gs[1..], color))
  }

  // ---- The scan ----

  /** Up to `n` blobs from the rest of the payload: what is found and what remains. */
  function ScanBlobs(rest: bytes, n: nat, wanted: bool, found: Option<Spot>): (bytes, Option<Spot>)
    decreases n
  {
    if n == 0 || |rest| < 10 then (rest, found)
    else
      var w, h := Join(rest[4], rest[5]), Join(rest[6], rest[7]);
      var take := wanted && found.None? && w < MAX_WIDTH && h < MAX_HEIGHT;
      ScanBlobs(rest[10..], n - 1, wanted,
                if take then Some(Spot(Join(rest[0], rest[1]), Join(rest[2], rest[3]))) else found)
  }

  /** One group from the rest of the payload; nothing if the payload ends before its blobs. */
  function ScanGroup(rest: bytes, color: bytes, found: Option<Spot>): Option<(bytes, Option<Spot>)> {
    if |rest| == 0 || 1 + rest[0] >= |rest| then None
    else
      var k: nat := rest[0] as int + 1;
      Some(ScanBlobs(rest[k + 1..], rest[k], Matches(color, rest[1..k]), found))
  }

  /** Up to `n` groups from the rest of the payload. */
  function ScanGroups(rest: bytes, n: nat, color: bytes, found: Option<Spot>): Option<Spot>
    decreases n
  {
    if n == 0 then found
    else
      match ScanGroup(rest, color, found)
      case None => found
      case Some(s) => ScanGroups(s.0, n - 1, color, s.1)
  }

  lemma WordAt(n: uint16)
    ensures Join(Word(n)[0], Word(n)[1]) == n
  {
    JoinSplit(n);
  }

  lemma BlobFields(b: Blob)
    ensures var s := BlobBytes(b);
      && Join(s[0], s[1]) == b.cx && Join(s[2], s[3]) == b.cy
      && Join(s[4], s[5]) == b.w && Join(s[6], s[7]) == b.h
  {
    WordAt(b.cx);
    WordAt(b.cy);
    WordAt(b.w);
    WordAt(b.h);
    hide Join, Hi, Lo;
  }

  lemma {:induction false} ScanFindsBlob(bs: seq<Blob>, tail: bytes, wanted: bool, found: Option<Spot>)
    ensures ScanBlobs(BlobsBytes(bs) + tail, |bs|, wanted, found) ==
      (tail, First(found, if wanted then FirstBlob(bs) else None))
  {
    if bs == [] {
      assert BlobsBytes(bs) + tail == tail;
    } else {
      var head, more := BlobBytes(bs[0]), BlobsBytes(bs[1..]) + tail;
      var rest := BlobsBytes(bs) + tail;
      assert rest == head + more;
      assert rest[10..] == more && forall i :: 0 <= i < 10 ==> rest[i] == head[i];
      BlobFields(bs[0]);
      hide Join, BlobBytes;
      var take := wanted && found.None? && Plausible(bs[0]);
      ScanFindsBlob(bs[1..], tail, wanted, if take then Some(Spot(bs[0].cx, bs[0].cy)) else found);
    }
  }

  lemma GroupsSplit(gs: seq<Group>)
    requires gs != [] && forall g :: g in gs ==> Encodable(g)
    ensures Encodable(gs[0])
    ensures GroupsBytes(gs) == GroupHead(gs[0]) + (BlobsBytes(gs[0].blobs) + GroupsBytes(gs[1..]))
  {
    assert gs[0] in gs;
    assert GroupsBytes(gs) == GroupHead(gs[0]) + BlobsBytes(gs[0].blobs) + GroupsBytes(gs[1..]);
    hide *;
    Associate(GroupHead(gs[0]), BlobsBytes(gs[0].blobs), GroupsBytes(gs[1..]));
  }

  lemma Associate(a: bytes, b: bytes, c: bytes)
    ensures a + b + c == a + (b + c)
  {
  }

  lemma ScanFindsGroup(g: Group, tail: bytes, color: bytes, found: Option<Spot>)
    requires Encodable(g)
    ensures ScanGroup(GroupHead(g) + (BlobsBytes(g.blobs) + tail), color, found) ==
      Some((tail, First(found, if Matches(color, g.name) then FirstBlob(g.blobs) else None)))
  {
    var more := BlobsBytes(g.blobs) + tail;
    var rest := GroupHead(g) + more;
    var k := 1 + |g.name|;
    assert rest[0] == |g.name| && rest[k] == |g.blobs| && rest[1..k] == g.name && rest[k + 1..] == more;
    hide Matches, BlobsBytes, ScanBlobs, FirstBlob;
    ScanFindsBlob(g.blobs, tail, Matches(color, g.name), found);
  }

  /** What the first group contributes. */
  function Offer(g: Group, color: bytes): Option<Spot> {
    if Matches(color, g.name) then FirstBlob(g.blobs) else None
  }

  lemma ScanFirstGroup(gs: seq<Group>, color: bytes, found: Option<Spot>)
    requires gs != [] && forall g :: g in gs ==> Encodable(g)
    ensures ScanGroups(GroupsBytes(gs), |gs|, color, found) ==
      ScanGroups(GroupsBytes(gs[1..]), |gs[1..]|, color, First(found, Offer(gs[0], color)))
  {
    hide Matches, BlobsBytes, GroupsBytes, GroupHead, ScanGroup, FirstBlob, First;
    GroupsSplit(gs);
    ScanFindsGroup(gs[0], GroupsBytes(gs[1..]), color, found);
  }

  lemma {:induction false} ScanFindsMatch(gs: seq<Group>, color: bytes, found: Option<Spot>)
    requires forall g :: g in gs ==> Encodable(g)
    ensures ScanGroups(GroupsBytes(gs), |gs|, color, found) == First(found, FirstMatch(gs, color))
  {
    if gs != [] {
      hide Matches, GroupsBytes, ScanGroups, FirstBlob, Encodable;
      ScanFirstGroup(gs, color, found);
      ScanFindsMatch(gs[1..], color, First(found, Offer(gs[0], color)));
    }
  }

  /**
   * The scan in `handleColor`, of a payload that is not empty. Whatever the bytes, it stays within the payload.
   */
  method FindBlock(payload: bytes, color: bytes) returns (found: Option<Spot>)
    requires payload != []
    ensures found == ScanGroups(payload[1..], payload[0], color, None)
  {
    found := None;
    var off, g := 1, payload[0];
    hide ScanGroup, ScanGroups;
    while g > 0 && off < |payload|
      invariant 1 <= off <= |payload| && g >= 0
      invariant ScanGroups(payload[off..], g, color, found) == ScanGroups(payload[1..], payload[0], color, None)
      decreases g
    {
      var whole: bool;
      ScanGroupsNext(payload[off..], g, color, found);
      whole, off, found := FindInGroup(payload, off, color, found);
      if !whole {
        return;
      }
      g := g - 1;
    }
    ScanGroupsNext(payload[off..], g, color, found);
    NothingLeft(color, found);
  }

  lemma ScanGroupsNext(rest: bytes, n: nat, color: bytes, found: Option<Spot>)
    ensures ScanGroups(rest, n, color, found) ==
      if n == 0 then found
      else match ScanGroup(rest, color, found) case None => found case Some(s) => ScanGroups(s.0, n - 1, color, s.1)
  {
    hide ScanGroup;
  }

  lemma NothingLeft(color: bytes, found: Option<Spot>)
    ensures ScanGroup([], color, found) == None
  {
  }

  /** One group; `whole` unless the payload ends before its blobs. */
  method FindInGroup(payload: bytes, start: nat, color: bytes, already: Option<Spot>)
    returns (whole: bool, off: nat, found: Option<Spot>)
    requires start < |payload|
    ensures off <= |payload| && (whole ==> start <= off) && (!whole ==> found == already)
    ensures ScanGroup(payload[start..], color, already) == if whole then Some((payload[off..], found)) else None
  {
    ghost var rest := payload[start..];
    var next := start + 1 + payload[start];
    if next >= |payload| {
      return false, start, already;
    }
    var name := payload[start + 1..next];
    assert rest[1..next - start] == name && rest[next - start + 1..] == payload[next + 1..];
    hide Matches, ScanBlobs;
    off, found := FindBlobs(payload, next + 1, payload[next], Matches(color, name), already);
    whole := true;
  }

  /** The inner loop, over the `count` blobs of one group. */
  method FindBlobs(payload: bytes, start: nat, count: nat, wanted: bool, already: Option<Spot>)
    returns (off: nat, found: Option<Spot>)
    requires start <= |payload|
    ensures off <= |payload| && start <= off
    ensures (payload[off..], found) == ScanBlobs(payload[start..], count, wanted, already)
  {
    off, found := start, already;
    var b := count;
    hide Join;
    while b > 0 && off + 10 <= |payload|
      invariant start <= off <= |payload| && b >= 0
      invariant ScanBlobs(payload[off..], b, wanted, found) == ScanBlobs(payload[start..], count, wanted, already)
      decreases b
    {
      ghost var rest := payload[off..];
      assert forall i :: 0 <= i < 10 ==> rest[i] == payload[off + i];
      assert rest[10..] == payload[off + 10..];
      var cx, cy := Join(payload[off], payload[off + 1]), Join(payload[off + 2], payload[off + 3]);
      var w, h := Join(payload[off + 4], payload[off + 5]), Join(payload[off + 6], payload[off + 7]);
      off := off + 10;
      if wanted && found.None? && w < MAX_WIDTH && h < MAX_HEIGHT {
        found := Some(Spot(cx, cy));
      }
      b := b - 1;
    }
  }

  /** On every well-formed report the scan yields the first plausible blob of the wanted colour, if there is one. */
  lemma ReportsAreUnderstood(gs: seq<Group>, color: bytes)
    requires |gs| < 256 && forall g :: g in gs ==> Encodable(g)
    ensures var payload := Encode(gs);
      ScanGroups(payload[1..], payload[0], color, None) == FirstMatch(gs, color)
  {
    assert Encode(gs)[1..] == GroupsBytes(gs);
    ScanFindsMatch(gs, color, None);
  }

  predicate Offers(gs: seq<Group>, color: bytes, g: nat, b: nat) {
    && g < |gs| && b < |gs[g].blobs|
    && Matches(color, gs[g].name) && Plausible(gs[g].blobs[b])
  }

  lemma {:induction false} FirstBlobIsFirst(bs: seq<Blob>) returns (b: nat)
    ensures FirstBlob(bs).None? ==> forall k :: 0 <= k < |bs| ==> !Plausible(bs[k])
    ensures FirstBlob(bs).Some? ==>
      && b < |bs| && Plausible(bs[b]) && FirstBlob(bs) == Some(Spot(bs[b].cx, bs[b].cy))
      && forall k :: 0 <= k < b ==> !Plausible(bs[k])
  {
    b := 0;
    if bs != [] && !Plausible(bs[0]) {
      var k := FirstBlobIsFirst(bs[1..]);
      b := k + 1;
      assert forall i :: 1 <= i < |bs| ==> bs[i] == bs[1..][i - 1];
    }
  }

  lemma OffersNext(gs: seq<Group>, color: bytes, g: nat, b: nat)
    requires gs != [] && g > 0
    ensures Offers(gs, color, g, b) <==> Offers(gs[1..], color, g - 1, b)
  {
    hide Matches, Plausible;
  }

  /** Nothing is found exactly if no group of the colour has a plausible blob. */
  lemma {:induction false} NothingIffNotOffered(gs: seq<Group>, color: bytes)
    ensures FirstMatch(gs, color).None? <==> forall g: nat, b: nat :: !Offers(gs, color, g, b)
  {
    if gs != [] {
      NothingIffNotOffered(gs[1..], color);
      var b := FirstBlobIsFirst(gs[0].blobs);
      assert FirstMatch(gs, color).None? <==> Offer(gs[0], color).None? && FirstMatch(gs[1..], color).None?;
      assert Offer(gs[0], color).Some? <==> Offers(gs, color, 0, b);
      assert Offer(gs[0], color).None? ==> forall k: nat :: !Offers(gs, color, 0, k);
      hide FirstBlob, FirstMatch, Offers, Offer;
      forall g: nat, k: nat | g > 0 ensures Offers(gs, color, g, k) <==> Offers(gs[1..], color, g - 1, k) {
        OffersNext(gs, color, g, k);
      }
      if FirstMatch(gs[1..], color).Some? {
        var g: nat, k: nat :| Offers(gs[1..], color, g, k);
        assert Offers(gs, color, g + 1, k);
      }
    }
  }
}
