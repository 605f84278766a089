/** Link frames of a robot description whose joint frames are translations: a fixpoint over the joints. */
module UrdfFrames {
  import opened Common

  datatype Vec = Vec(x: real, y: real, z: real)

  const ORIGIN := Vec(0.0, 0.0, 0.0)

  function Plus(a: Vec, b: Vec): Vec {
    Vec(a.x + b.x, a.y + b.y, a.z + b.z)
  }

  datatype Link = Link(name: string)

  const BASE := Link("base_link")

  datatype Joint = Joint(name: string, parent: Link, child: Link, xyz: Vec)

  type Frames = map<Link, Vec>

  // ---- The fixpoint ----

  /** One joint: if the parent's frame is known and the child's is not, the child gets one. */
  function Visit(f: Frames, j: Joint): Frames {
    if j.parent in f && j.child !in f then f[j.child := Plus(f[j.parent], j.xyz)] else f
  }

  /** One pass over the joints. */
  function Pass(js: seq<Joint>, f: Frames): Frames {
    if js == [] then f else Visit(Pass(js[..|js| - 1], f), js[|js| - 1])
  }

  predicate Extends(g: Frames, f: Frames) {
    f.Keys <= g.Keys && forall l :: l in f ==> g[l] == f[l]
  }

  lemma {:induction false} PassExtends(js: seq<Joint>, f: Frames)
    ensures Extends(Pass(js, f), f)
  {
    if js != [] {
      PassExtends(js[..|js| - 1], f);
    }
  }

  lemma SubsetIsSmaller<T>(a: set<T>, b: set<T>)
    requires a <= b
    ensures |a| <= |b| && (|a| == |b| ==> a == b)
  {
    var rest := b - a;
    assert b == a + rest && |b| == |a| + |rest|;
  }

  lemma ProgressGrows(f: Frames, g: Frames)
    requires Extends(g, f) && g != f
    ensures |g.Keys| > |f.Keys|
  {
    SubsetIsSmaller(f.Keys, g.Keys);
  }

  /** Passes until every joint could have had its say or nothing changes. */
  function Settle(js: seq<Joint>, f: Frames): Frames
    decreases |js| + 1 - |f.Keys|
  {
    if |f.Keys| > |js| then f
    else
      var g := Pass(js, f);
      PassExtends(js, f);
      if g == f then f
      else
        ProgressGrows(f, g);
        Settle(js, g)
  }

  const START: Frames := map[BASE := ORIGIN]

  /** The loop of `urdf_frames`; it ends on every list of joints. */
  method FrameLoop(js: seq<Joint>) returns (frames: Frames)
    ensures frames == Settle(js, START)
  {
    frames := map[BASE := ORIGIN];
    while |frames.Keys| <= |js|
      invariant Settle(js, frames) == Settle(js, START)
      decreases |js| + 1 - |frames.Keys|
    {
      ghost var before := frames;
      var progress := false;
      for i := 0 to |js|
        invariant frames == Pass(js[..i], before)
        invariant Extends(frames, before)
        invariant progress <==> frames != before
      {
        assert js[..i + 1][..i] == js[..i];
        var j := js[i];
        if j.parent in frames && j.child !in frames {
          frames := frames[j.child := Plus(frames[j.parent], j.xyz)];
          progress := true;
        }
      }
      assert js[..|js|] == js;
      if !progress {
        break;
      }
      ProgressGrows(before, frames);
    }
  }

  // ---- What the frames are ----

  /** A way from the base to a link along joints. */
  predicate Path(js: seq<Joint>, p: seq<Joint>, l: Link) {
    if p == [] then l == BASE
    else
      var j := p[|p| - 1];
      j in js && j.child == l && Path(js, p[..|p| - 1], j.parent)
  }

  function PathSum(p: seq<Joint>): Vec {
    if p == [] then ORIGIN else Plus(PathSum(p[..|p| - 1]), p[|p| - 1].xyz)
  }

  function Added(s: seq<real>): real {
    if s == [] then 0.0 else s[0] + Added(s[1..])
  }

  lemma {:induction false} AddedLast(s: seq<real>, x: real)
    ensures Added(s + [x]) == Added(s) + x
  {
    if s == [] {
      assert s + [x] == [x] && [x][1..] == [];
    } else {
      assert (s + [x])[1..] == s[1..] + [x];
      AddedLast(s[1..], x);
    }
  }

  function Xs(p: seq<Joint>): seq<real> {
    seq(|p|, i requires 0 <= i < |p| => p[i].xyz.x)
  }

  function Ys(p: seq<Joint>): seq<real> {
    seq(|p|, i requires 0 <= i < |p| => p[i].xyz.y)
  }

  function Zs(p: seq<Joint>): seq<real> {
    seq(|p|, i requires 0 <= i < |p| => p[i].xyz.z)
  }

  /** Each coordinate of a path's sum is the sum of the joints' coordinates. */
  lemma {:induction false} PathSumIs(p: seq<Joint>)
    ensures PathSum(p) == Vec(Added(Xs(p)), Added(Ys(p)), Added(Zs(p)))
  {
    if p != [] {
      var q, v := p[..|p| - 1], p[|p| - 1].xyz;
      PathSumIs(q);
      assert Xs(p) == Xs(q) + [v.x] && Ys(p) == Ys(q) + [v.y] && Zs(p) == Zs(q) + [v.z];
      AddedLast(Xs(q), v.x);
      AddedLast(Ys(q), v.y);
      AddedLast(Zs(q), v.z);
    }
  }

  /** The path meets no link twice, the base included. */
  predicate Simple(p: seq<Joint>) {
    && (forall i :: 0 <= i < |p| ==> p[i].child != BASE)
    && forall i, k :: 0 <= i < k < |p| ==> p[i].child != p[k].child
  }

  /** The value is the sum of the joint origins along a simple path through links that have frames. */
  ghost predicate Derived(js: seq<Joint>, f: Frames, l: Link, v: Vec) {
    exists p :: Via(js, f, l, v, p)
  }

  predicate Via(js: seq<Joint>, f: Frames, l: Link, v: Vec, p: seq<Joint>) {
    Path(js, p, l) && Simple(p) && PathSum(p) == v && forall i :: 0 <= i < |p| ==> p[i].child in f
  }

  ghost predicate Sound(js: seq<Joint>, f: Frames) {
    && BASE in f && f[BASE] == ORIGIN
    && forall l :: l in f ==> Derived(js, f, l, f[l])
  }

  /** The other links with frames are children of joints. */
  predicate OfJoints(js: seq<Joint>, f: Frames) {
    forall l :: l in f && l != BASE ==> l in Children(js)
  }

  function Children(js: seq<Joint>): (c: set<Link>)
    ensures |c| <= |js|
    ensures forall j :: j in js ==> j.child in c
  {
    if js == [] then {} else Children(js[..|js| - 1]) + {js[|js| - 1].child}
  }

  /** No joint leads from a link with a frame to one without. */
  predicate Closed(js: seq<Joint>, f: Frames) {
    forall j :: j in js && j.parent in f ==> j.child in f
  }

  lemma ViaGrows(js: seq<Joint>, f: Frames, g: Frames, l: Link, v: Vec)
    requires Derived(js, f, l, v) && f.Keys <= g.Keys
    ensures Derived(js, g, l, v)
  {
    var p :| Via(js, f, l, v, p);
    assert Via(js, g, l, v, p);
  }

  lemma ChildIsDerived(js: seq<Joint>, f: Frames, j: Joint)
    requires j in js && j.parent in f && j.child !in f && Derived(js, f, j.parent, f[j.parent]) && BASE in f
    ensures Derived(js, Visit(f, j), j.child, Visit(f, j)[j.child])
  {
    var p :| Via(js, f, j.parent, f[j.parent], p);
    var q := p + [j];
    assert q[..|p|] == p;
    assert Via(js, Visit(f, j), j.child, Visit(f, j)[j.child], q);
  }

  lemma VisitIsSound(js: seq<Joint>, f: Frames, j: Joint)
    requires Sound(js, f) && OfJoints(js, f) && j in js
    ensures Sound(js, Visit(f, j)) && OfJoints(js, Visit(f, j))
  {
    var g := Visit(f, j);
    hide Derived, Children;
    if g != f {
      ChildIsDerived(js, f, j);
      forall l | l in g ensures Derived(js, g, l, g[l]) {
        if l != j.child {
          ViaGrows(js, f, g, l, f[l]);
        }
      }
    }
  }

  lemma {:induction false} PassIsSound(js: seq<Joint>, part: seq<Joint>, f: Frames)
    requires Sound(js, f) && OfJoints(js, f) && forall j :: j in part ==> j in js
    ensures Sound(js, Pass(part, f)) && OfJoints(js, Pass(part, f))
  {
    if part != [] {
      PassIsSound(js, part[..|part| - 1], f);
      VisitIsSound(js, Pass(part[..|part| - 1], f), part[|part| - 1]);
    }
  }

  lemma {:induction false} FixpointIsClosed(js: seq<Joint>, f: Frames)
    requires Pass(js, f) == f
    ensures Closed(js, f)
  {
    if js != [] {
      var before := js[..|js| - 1];
      PassExtends(before, f);
      var g := Pass(before, f);
      assert g == f by {
        assert Extends(Visit(g, js[|js| - 1]), g);
      }
      FixpointIsClosed(before, f);
      forall j | j in js && j.parent in f ensures j.child in f {
        assert j in before || j == js[|js| - 1];
      }
    }
  }

  /** As many frames as joints and one more: every joint's child has one. */
  lemma FullIsClosed(js: seq<Joint>, f: Frames)
    requires |f.Keys| > |js| && OfJoints(js, f) && BASE in f
    ensures Closed(js, f)
  {
    var others := f.Keys - {BASE};
    assert f.Keys == others + {BASE} && |f.Keys| == |others| + 1;
    SubsetIsSmaller(others, Children(js));
  }

  lemma {:induction false} SettleIsSound(js: seq<Joint>, f: Frames)
    requires Sound(js, f) && OfJoints(js, f)
    ensures Sound(js, Settle(js, f)) && Closed(js, Settle(js, f)) && Extends(Settle(js, f), f)
    decreases |js| + 1 - |f.Keys|
  {
    if |f.Keys| > |js| {
      FullIsClosed(js, f);
    } else {
      var g := Pass(js, f);
      PassExtends(js, f);
      PassIsSound(js, js, f);
      if g == f {
        FixpointIsClosed(js, f);
      } else {
        ProgressGrows(f, g);
        SettleIsSound(js, g);
      }
    }
  }

  lemma StartIsSound(js: seq<Joint>)
    ensures Sound(js, START) && OfJoints(js, START)
  {
    assert Via(js, START, BASE, ORIGIN, []);
  }

  lemma {:induction false} ReachableHasFrame(js: seq<Joint>, f: Frames, p: seq<Joint>, l: Link)
    requires Closed(js, f) && BASE in f && Path(js, p, l)
    ensures l in f
  {
    if p != [] {
      ReachableHasFrame(js, f, p[..|p| - 1], p[|p| - 1].parent);
    }
  }

  /** The frames `urdf_frames` returns for a list of joints. */
  function FramesOf(js: seq<Joint>): Frames {
    Settle(js, START)
  }

  lemma BaseIsTheOrigin(js: seq<Joint>)
    ensures Link("base_link") in FramesOf(js) && FramesOf(js)[Link("base_link")] == Vec(0.0, 0.0, 0.0)
  {
    StartIsSound(js);
    SettleIsSound(js, START);
  }

  predicate SimplePath(js: seq<Joint>, p: seq<Joint>, l: Link) {
    Path(js, p, l) && Simple(p)
  }

  /** Every frame is the sum of the joint origins along a simple path. */
  lemma FrameHasPath(js: seq<Joint>, l: Link) returns (p: seq<Joint>)
    requires l in FramesOf(js)
    ensures SimplePath(js, p, l) && PathSum(p) == FramesOf(js)[l]
  {
    StartIsSound(js);
    SettleIsSound(js, START);
    var f := FramesOf(js);
    p :| Via(js, f, l, f[l], p);
  }

  /** Every link that can be reached from the base has a frame. */
  lemma PathHasFrame(js: seq<Joint>, p: seq<Joint>, l: Link)
    requires Path(js, p, l)
    ensures l in FramesOf(js)
  {
    StartIsSound(js);
    SettleIsSound(js, START);
    hide Settle, Path, Derived;
    ReachableHasFrame(js, FramesOf(js), p, l);
  }

  /** On every list of joints: the links with frames are those that can be reached from the base. */
  lemma FramesAreReachableLinks(js: seq<Joint>, l: Link)
    ensures l in FramesOf(js) <==> exists p :: Path(js, p, l)
  {
    hide FramesOf;
    if l in FramesOf(js) {
      var p := FrameHasPath(js, l);
    }
    if p :| Path(js, p, l) {
      PathHasFrame(js, p, l);
    }
  }

  // ---- Trees ----

  /** No joint leads to the base and no two to the same link. */
  predicate Tree(js: seq<Joint>) {
    && (forall j :: j in js ==> j.child != BASE)
    && forall j, k :: j in js && k in js && j.child == k.child ==> j == k
  }

  lemma {:induction false} TreePathIsUnique(js: seq<Joint>, p: seq<Joint>, q: seq<Joint>, l: Link)
    requires Tree(js) && Path(js, p, l) && Path(js, q, l)
    ensures p == q
  {
    if p != [] && q != [] {
      TreePathIsUnique(js, p[..|p| - 1], q[..|q| - 1], p[|p| - 1].parent);
      assert p == p[..|p| - 1] + [p[|p| - 1]] && q == q[..|q| - 1] + [q[|q| - 1]];
    }
  }

  /** In a tree, every reachable link's frame is the sum of the joint origins along its one path from the base. */
  lemma TreeFrames(js: seq<Joint>, p: seq<Joint>, l: Link)
    requires Tree(js) && Path(js, p, l)
    ensures l in FramesOf(js) && FramesOf(js)[l] == PathSum(p)
  {
    hide FramesOf, Tree, Simple;
    PathHasFrame(js, p, l);
    var q := FrameHasPath(js, l);
    TreePathIsUnique(js, p, q, l);
  }

  // ---- When the order of the joints matters ----

  /** The same joints in some order. */
  predicate SameJoints(js: seq<Joint>, ks: seq<Joint>) {
    multiset(js) == multiset(ks)
  }

  lemma SameMembers(js: seq<Joint>, ks: seq<Joint>, j: Joint)
    requires SameJoints(js, ks) && j in js
    ensures j in ks
  {
    assert j in multiset(js);
  }

  /** Simple paths to the same link have the same sum. */
  ghost predicate PathsAgree(js: seq<Joint>) {
    forall l, p, q :: SimplePath(js, p, l) && SimplePath(js, q, l) ==> PathSum(p) == PathSum(q)
  }

  lemma {:induction false} PathInSame(js: seq<Joint>, ks: seq<Joint>, p: seq<Joint>, l: Link)
    requires SameJoints(js, ks) && Path(js, p, l)
    ensures Path(ks, p, l)
  {
    if p != [] {
      SameMembers(js, ks, p[|p| - 1]);
      PathInSame(js, ks, p[..|p| - 1], p[|p| - 1].parent);
    }
  }

  lemma SameLinks(js: seq<Joint>, ks: seq<Joint>, l: Link)
    requires SameJoints(js, ks) && l in FramesOf(js)
    ensures l in FramesOf(ks)
  {
    hide FramesOf, SameJoints, Path;
    var p := FrameHasPath(js, l);
    PathInSame(js, ks, p, l);
    PathHasFrame(ks, p, l);
  }

  lemma AgreeingFrame(js: seq<Joint>, ks: seq<Joint>, l: Link)
    requires SameJoints(js, ks) && PathsAgree(js) && l in FramesOf(js) && l in FramesOf(ks)
    ensures FramesOf(ks)[l] == FramesOf(js)[l]
  {
    hide FramesOf, SameJoints, Path, Simple, PathSum;
    var p := FrameHasPath(js, l);
    var q := FrameHasPath(ks, l);
    SymmetricJoints(js, ks);
    PathInSame(ks, js, q, l);
    assert SimplePath(js, q, l);
  }

  lemma SymmetricJoints(js: seq<Joint>, ks: seq<Joint>)
    requires SameJoints(js, ks)
    ensures SameJoints(ks, js)
  {
  }

  lemma AgreeingFrames(js: seq<Joint>, ks: seq<Joint>)
    requires SameJoints(js, ks) && PathsAgree(js)
    ensures FramesOf(ks) == FramesOf(js)
  {
    SymmetricJoints(js, ks);
    hide FramesOf, SameJoints, PathsAgree;
    forall l | l in FramesOf(js) ensures l in FramesOf(ks) {
      SameLinks(js, ks, l);
    }
    forall l | l in FramesOf(ks) ensures l in FramesOf(js) {
      SameLinks(ks, js, l);
    }
    forall l | l in FramesOf(js) ensures FramesOf(ks)[l] == FramesOf(js)[l] {
      AgreeingFrame(js, ks, l);
    }
  }

  lemma TreePathsAgree(js: seq<Joint>)
    requires Tree(js)
    ensures PathsAgree(js)
  {
    hide Tree, Path, Simple, PathSum;
    forall l, p, q | SimplePath(js, p, l) && SimplePath(js, q, l) ensures PathSum(p) == PathSum(q) {
      TreePathIsUnique(js, p, q, l);
    }
  }

  /** In a tree the frames do not depend on the order in which the joints are listed. */
  lemma TreeFramesIgnoreTheOrder(js: seq<Joint>, ks: seq<Joint>)
    requires Tree(js) && SameJoints(js, ks)
    ensures FramesOf(ks) == FramesOf(js)
  {
    TreePathsAgree(js);
    AgreeingFrames(js, ks);
  }

  lemma {:induction false} PassAppend(a: seq<Joint>, b: seq<Joint>, f: Frames)
    ensures Pass(a + b, f) == Pass(b, Pass(a, f))
  {
    if b == [] {
      assert a + b == a;
    } else {
      PassAppend(a, b[..|b| - 1], f);
      assert (a + b)[..|a + b| - 1] == a + b[..|b| - 1];
    }
  }

  /** One pass over a simple path, in its order, gives its end the sum along it. */
  lemma {:induction false} PassAlongPath(js: seq<Joint>, p: seq<Joint>, l: Link)
    requires Path(js, p, l) && Simple(p)
    ensures var f := Pass(p, START);
      && l in f && f[l] == PathSum(p)
      && forall k :: k in f ==> k == BASE || exists i :: 0 <= i < |p| && p[i].child == k
  {
    if p != [] {
      var before, j := p[..|p| - 1], p[|p| - 1];
      PassAlongPath(js, before, j.parent);
      var f := Pass(before, START);
      assert j.child !in f by {
        assert forall i :: 0 <= i < |before| ==> before[i] == p[i];
      }
      forall k | k in Pass(p, START) && k != BASE ensures exists i :: 0 <= i < |p| && p[i].child == k {
        if k == j.child {
          assert p[|p| - 1].child == k;
        } else {
          var i :| 0 <= i < |before| && before[i].child == k;
          assert p[i].child == k;
        }
      }
    }
  }

  function Without(js: seq<Joint>, j: Joint): (r: seq<Joint>)
    requires j in js
    ensures multiset(js) == multiset(r) + multiset{j}
  {
    var k := |js| - 1;
    assert js == js[..k] + [js[k]];
    if js[k] == j then js[..k] else Without(js[..k], j) + [js[k]]
  }

  lemma LeftOver(js: multiset<Joint>, before: multiset<Joint>, r: multiset<Joint>, j: Joint)
    requires js == before + r && before + multiset{j} <= js
    ensures j in r
  {
    assert js[j] >= before[j] + 1;
  }

  /** The joints that are left when a path's are taken out. */
  function Rest(js: seq<Joint>, p: seq<Joint>): (r: seq<Joint>)
    requires multiset(p) <= multiset(js)
    ensures multiset(js) == multiset(p) + multiset(r)
  {
    if p == [] then js
    else
      var k := |p| - 1;
      assert p == p[..k] + [p[k]];
      assert multiset(p) == multiset(p[..k]) + multiset{p[k]};
      var r := Rest(js, p[..k]);
      LeftOver(multiset(js), multiset(p[..k]), multiset(r), p[k]);
      Without(r, p[k])
  }

  lemma {:induction false} SimplePathIsPart(js: seq<Joint>, p: seq<Joint>, l: Link)
    requires Path(js, p, l) && Simple(p)
    ensures multiset(p) <= multiset(js)
  {
    if p != [] {
      var before, j := p[..|p| - 1], p[|p| - 1];
      SimplePathIsPart(js, before, j.parent);
      assert p == before + [j];
      assert j !in before by {
        assert forall i :: 0 <= i < |before| ==> before[i] == p[i];
      }
      assert multiset(before)[j] == 0 && j in multiset(js);
    }
  }

  /** Listing a simple path's joints first makes the frame of its end the sum along it. */
  lemma PathFirst(js: seq<Joint>, p: seq<Joint>, l: Link) returns (ks: seq<Joint>)
    requires Path(js, p, l) && Simple(p)
    ensures SameJoints(js, ks) && l in FramesOf(ks) && FramesOf(ks)[l] == PathSum(p)
  {
    SimplePathIsPart(js, p, l);
    var rest := Rest(js, p);
    ks := p + rest;
    var g := Pass(ks, START);
    PassAlongPath(js, p, l);
    PassAppend(p, rest, START);
    PassExtends(rest, Pass(p, START));
    SettleExtendsAPass(ks);
  }

  lemma SettleExtendsAPass(ks: seq<Joint>)
    ensures Extends(Settle(ks, START), Pass(ks, START))
  {
    var g := Pass(ks, START);
    PassExtends(ks, START);
    if |START.Keys| > |ks| {
      assert ks == [];
    } else if g != START {
      StartIsSound(ks);
      PassIsSound(ks, ks, START);
      SettleIsSound(ks, g);
    }
  }

  /** The frames do not depend on the order of the joints exactly if simple paths to the same link have equal sums. */
  lemma OrderIsIrrelevantIffPathsAgree(js: seq<Joint>)
    ensures PathsAgree(js) <==> forall ks :: SameJoints(js, ks) ==> FramesOf(ks) == FramesOf(js)
  {
    hide FramesOf, SameJoints, Path, Simple, PathSum;
    if PathsAgree(js) {
      forall ks | SameJoints(js, ks) ensures FramesOf(ks) == FramesOf(js) {
        AgreeingFrames(js, ks);
      }
    } else {
      var l, p, q :| SimplePath(js, p, l) && SimplePath(js, q, l) && PathSum(p) != PathSum(q);
      var ks := PathFirst(js, p, l);
      var ks' := PathFirst(js, q, l);
      assert FramesOf(ks) != FramesOf(ks');
    }
  }

  // ---- Reading the joints ----

  datatype Placement = Placement(xyz: Vec, rotated: bool)

  /** A joint element of the description; those without a parent or a child are of another kind. */
  datatype Element = Element(name: string, parent: Option<Link>, child: Option<Link>, origin: Option<Placement>)
  {
    predicate Usable() {
      parent.Some? && child.Some?
    }

    predicate Rotated() {
      origin.Some? && origin.value.rotated
    }

    function AsJoint(): Joint
      requires Usable()
    {
      Joint(name, parent.value, child.value, if origin.Some? then origin.value.xyz else ORIGIN)
    }
  }

  /** Storing in a dictionary: a name seen before keeps its place and gets the new value. */
  function Put(js: seq<Joint>, j: Joint): (r: seq<Joint>)
    ensures |js| <= |r| <= |js| + 1
    ensures forall i :: 0 <= i < |js| ==> r[i] == if js[i].name == j.name then j else js[i]
    ensures |r| > |js| <==> forall i :: 0 <= i < |js| ==> js[i].name != j.name
    ensures |r| > |js| ==> r[|js|] == j
  {
    if exists i :: 0 <= i < |js| && js[i].name == j.name then
      seq(|js|, i requires 0 <= i < |js| => if js[i].name == j.name then j else js[i])
    else js + [j]
  }

  /** The joints read, or nothing if a joint frame is rotated. */
  function Read(es: seq<Element>): Option<seq<Joint>> {
    if es == [] then Some([])
    else
      var before, e := Read(es[..|es| - 1]), es[|es| - 1];
      if before.None? || !e.Usable() then before
      else if e.Rotated() then None
      else Some(Put(before.value, e.AsJoint()))
  }

  /** A joint with parent and child whose origin is rotated. */
  predicate RotatedBetweenLinks(e: Element) {
    e.parent.Some? && e.child.Some? && e.origin.Some? && e.origin.value.rotated
  }

  /** Reading fails exactly if some joint between two links is rotated. */
  lemma {:induction false} ReadFailsIffRotated(es: seq<Element>)
    ensures Read(es).None? <==> exists i :: 0 <= i < |es| && RotatedBetweenLinks(es[i])
  {
    if es != [] {
      var before := es[..|es| - 1];
      ReadFailsIffRotated(before);
      if i :| 0 <= i < |before| && RotatedBetweenLinks(before[i]) {
        assert es[i] == before[i];
      }
    }
  }

  /** The last usable element with the name. */
  function LastNamed(es: seq<Element>, name: string): Option<Element> {
    if es == [] then None
    else
      var e := es[|es| - 1];
      if e.parent.Some? && e.child.Some? && e.name == name then Some(e) else LastNamed(es[..|es| - 1], name)
  }

  predicate NamesDiffer(js: seq<Joint>) {
    forall i, k :: 0 <= i < k < |js| ==> js[i].name != js[k].name
  }

  lemma PutKeepsOthers(js: seq<Joint>, j: Joint, k: Joint)
    ensures j in Put(js, j)
    ensures k.name != j.name ==> (k in Put(js, j) <==> k in js)
    ensures k.name == j.name ==> (k in Put(js, j) <==> k == j)
  {
    var r := Put(js, j);
    if k in js && k.name != j.name {
      var i :| 0 <= i < |js| && js[i] == k;
      assert r[i] == k;
    }
    if |r| == |js| {
      var i :| 0 <= i < |js| && js[i].name == j.name;
      assert r[i] == j;
    }
  }

  /** Joint names are unique, and every name stands for its last definition. */
  lemma {:induction false} ReadKeepsTheLast(es: seq<Element>, j: Joint)
    requires Read(es).Some?
    ensures NamesDiffer(Read(es).value)
    ensures var e := LastNamed(es, j.name);
      j in Read(es).value <==>
        && e.Some? && e.value.parent == Some(j.parent) && e.value.child == Some(j.child)
        && j.xyz == if e.value.origin.Some? then e.value.origin.value.xyz else Vec(0.0, 0.0, 0.0)
  {
    if es != [] {
      var before, e := es[..|es| - 1], es[|es| - 1];
      ReadKeepsTheLast(before, j);
      if e.Usable() {
        PutKeepsOthers(Read(before).value, e.AsJoint(), j);
      }
    }
  }

  datatype Description = RotatedJoint | Described(frames: Frames, joints: seq<Joint>)

  /** `urdf_frames` on the joint elements of a description. */
  method UrdfFramesOf(es: seq<Element>) returns (d: Description)
    ensures d == match Read(es) case None => RotatedJoint case Some(js) => Described(FramesOf(js), js)
  {
    var joints: seq<Joint> := [];
    for i := 0 to |es|
      invariant Read(es[..i]) == Some(joints)
    {
      assert es[..i + 1][..i] == es[..i];
      if es[i].Usable() {
        if es[i].Rotated() {
          ReadFailsIffRotated(es);
          return RotatedJoint;
        }
        joints := Put(joints, es[i].AsJoint());
      }
    }
    assert es[..|es|] == es;
    var frames := FrameLoop(joints);
    d := Described(frames, joints);
  }
}
