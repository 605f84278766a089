/**
 * Stacking blocks by colour: the arm tracks the colour's block until it has stayed in the middle of the picture for
 * three seconds, then grabs it, puts it on the stack and goes on with the next colour.
 */
module ColorStack {
  import opened Reals

  const S_X := 200.0
  const S_Y := 0.0
  const S_Z := 200.0
  const LIFT_Z := 220.0
  const BLOCK_H := 30.0
  const C_OPEN := -60.0
  const C_CLOSE := 20.0
  const MAX_COLORS := 8
  const POLL_INTERVAL := 10
  const MOVE_INTERVAL := 40
  const STABLE_MS := 3000
  const CENTER_DEADBAND := 15
  const CENTER_RELEASE_BAND := 25
  const D_TERM_MAX := 40.0

  /** The states a run can be in; the heartbeat states before Search are passed inside `start`. */
  datatype Phase = Init | Search | Down | Grab | Lift | Place | Release | Reset
  {
    predicate Timed() {
      Down? || Grab? || Lift? || Place? || Release? || Reset?
    }

    /** How long the phase lasts at least, in ms. */
    function Dwell(): nat
      requires Timed()
    {
      match this
      case Down => 100
      case Grab => 2500
      case Lift => 800
      case Place => 1500
      case Release => 1800
      case Reset => 1000
    }
  }

  datatype Color = Color(name: string)

  /** What a poll of the mailbox yields: nothing of interest, an empty bounding-box report, or a colour report. */
  datatype Report = Nothing | EmptyBox | Lost | Seen(cx: nat, cy: nat)
  {
    function Ex(): int
      requires Seen?
    {
      160 - cx
    }

    function Ey(): int
      requires Seen?
    {
      120 - cy
    }

    predicate Within(band: nat)
      requires Seen?
    {
      0 - band <= Ex() <= band && 0 - band <= Ey() <= band
    }

    predicate Centred() {
      Seen? && Within(CENTER_DEADBAND)
    }
  }

  /** A command to the arm and the phase that gave it. */
  datatype Order = Order(stage: Phase, x: real, y: real, z: real, claw: real, ms: nat)

  /** Calibration and gains. */
  datatype Setup = Setup(kp: real, kd: real, xComp: real, yComp: real, grabZ: real,
                         placeX: real, placeY: real, placeZ: real)

  /**
   * The state of the grabber. `sent` and `orders` are the colour targets sent to the camera and the commands given
   * to the arm since the last start.
   */
  datatype Machine = Machine(
    busy: bool, phase: Phase, list: seq<Color>, count: nat, index: nat, stacked: nat, current: Color,
    tx: real, ty: real, lastEx: real, lastEy: real, locked: bool, stable: nat, stableStart: nat,
    grabX: real, grabY: real, stateTime: nat, pollTime: nat, ignoreUntil: nat, lastMove: nat,
    sent: seq<Color>, orders: seq<Order>)

  /** A direction as the cosine and the sine the mathematics library computes. */
  datatype Bearing = Bearing(cos: real, sin: real)

  /**
   * One call of `update`: the clock when it starts and when it acts, what a poll would find, and the bearing of the
   * grab point.
   */
  datatype Event = Tick(now: nat, late: nat, report: Report, bearing: Bearing)

  function Clamp(v: real, lo: real, hi: real): (r: real)
    ensures lo <= hi ==> lo <= r <= hi
  {
    if v < lo then lo else if v > hi then hi else v
  }

  function Home(stage: Phase, ms: nat): Order {
    Order(stage, S_X, S_Y, S_Z, C_OPEN, ms)
  }

  /** Back at the search position, with no memory of what was seen. */
  function Recentred(m: Machine): Machine {
    m.(tx := S_X, ty := S_Y, lastEx := 0.0, lastEy := 0.0, locked := false, stable := 0)
  }

  /** `start`, given whether the camera's mailbox answers and the time at its end. */
  function Start(m: Machine, colors: seq<Color>, count: nat, mailboxOk: bool, at: nat): (r: Machine)
    requires |m.list| == MAX_COLORS && (if count > MAX_COLORS then MAX_COLORS else count) <= |colors|
  {
    var n := if count > MAX_COLORS then MAX_COLORS else count;
    var list := colors[..n] + m.list[n..];
    var stopping := if m.busy then [Home(Init, 1500)] else [];
    var ready := Recentred(m).(busy := mailboxOk, count := n, index := 0, stacked := 0, list := list,
                               current := list[0], orders := stopping + [Home(Search, 1000)], sent := []);
    if mailboxOk then
      ready.(phase := Search, stateTime := at, pollTime := at, ignoreUntil := at + 1000, sent := [list[0]])
    else ready
  }

  function Unseen(m: Machine): Machine {
    m.(lastEx := 0.0, lastEy := 0.0, stable := 0)
  }

  /** A report in the middle of the picture. */
  function Steady(m: Machine, at: nat): Machine {
    var start := if m.stable == 0 then at else m.stableStart;
    var held := m.(locked := true, lastEx := 0.0, lastEy := 0.0, stableStart := start);
    if at - start >= STABLE_MS then
      held.(grabX := m.tx, grabY := m.ty, phase := Down, stateTime := at, stable := 0)
    else held.(stable := m.stable + 1)
  }

  /** Proportional-derivative control of one axis, with a limited derivative term. */
  function Correction(c: Setup, e: int, last: real): real {
    e as real * c.kp + Clamp(e as real - last, -D_TERM_MAX, D_TERM_MAX) * c.kd
  }

  /** The correction for a block off centre. The picture's rows are the arm's x axis. */
  function Track(c: Setup, m: Machine, ex: int, ey: int, at: nat): Machine {
    var tx := Clamp(m.tx + Correction(c, ey, m.lastEy), S_X - 120.0, S_X + 120.0);
    var ty := Clamp(m.ty + Correction(c, ex, m.lastEx), -300.0, 300.0);
    var next := m.(locked := false, stable := 0, lastEx := ex as real, lastEy := ey as real, tx := tx, ty := ty);
    if at - m.lastMove >= MOVE_INTERVAL then
      next.(orders := m.orders + [Order(Search, tx, ty, S_Z, C_OPEN, 30)], lastMove := at)
    else next
  }

  /** Colour reports are used only in Search and once the arm has settled. */
  predicate Accepts(m: Machine, at: nat) {
    m.phase == Search && at >= m.ignoreUntil
  }

  function HandleColor(c: Setup, m: Machine, at: nat, r: Report): Machine
    requires r.Lost? || r.Seen?
  {
    if !Accepts(m, at) then m
    else if r.Lost? then Unseen(m)
    else if r.Centred() then Steady(m, at)
    else if m.locked && r.Within(CENTER_RELEASE_BAND) then m.(stable := 0)
    else Track(c, m, r.Ex(), r.Ey(), at)
  }

  function Handle(c: Setup, m: Machine, at: nat, r: Report): Machine {
    match r
    case Nothing => m
    case EmptyBox => if m.phase == Search then Unseen(m) else m
    case _ => HandleColor(c, m, at, r)
  }

  function StackHeight(c: Setup, k: nat): real {
    c.placeZ + k as real * BLOCK_H
  }

  function NextColor(m: Machine, late: nat): Machine {
    var i := m.index + 1;
    var home := m.(index := i, orders := m.orders + [Home(Reset, 1000)]);
    if i < m.count && i < |m.list| then
      Recentred(home).(current := m.list[i], sent := m.sent + [m.list[i]], ignoreUntil := late + 1500,
                       phase := Search, stateTime := late)
    else home.(busy := false)
  }

  /** The calibration offset turned into the direction of the grab point. */
  function TurnedX(c: Setup, b: Bearing): real {
    c.xComp * b.cos - c.yComp * b.sin
  }

  function TurnedY(c: Setup, b: Bearing): real {
    c.xComp * b.sin + c.yComp * b.cos
  }

  /** What the timed phase does when it is over. */
  function Advance(c: Setup, m: Machine, now: nat, late: nat, b: Bearing): Machine
    requires m.phase.Timed()
  {
    var gx, gy := m.grabX + c.xComp, m.grabY + c.yComp;
    match m.phase
    case Down =>
      var o := Order(Down, m.grabX + TurnedX(c, b), m.grabY + TurnedY(c, b), c.grabZ, C_OPEN, 1000);
      m.(phase := Grab, stateTime := now, orders := m.orders + [o])
    case Grab =>
      m.(phase := Lift, stateTime := now, orders := m.orders + [Order(Grab, gx, gy, c.grabZ, C_CLOSE, 500)])
    case Lift =>
      m.(phase := Place, stateTime := now, orders := m.orders + [Order(Lift, gx, gy, LIFT_Z, C_CLOSE, 1000)])
    case Place =>
      var z := StackHeight(c, m.stacked);
      m.(phase := Release, stateTime := now,
         orders := m.orders + [Order(Place, c.placeX, c.placeY, z, C_CLOSE, 1500)])
    case Release =>
      var z := StackHeight(c, m.stacked) + 40.0;
      m.(phase := Reset, stateTime := now, stacked := m.stacked + 1,
         orders := m.orders + [Order(Release, c.placeX, c.placeY, z, C_OPEN, 500)])
    case Reset => NextColor(m, late)
  }

  /** `update` */
  function Step(c: Setup, m: Machine, e: Event): Machine {
    if !m.busy then m
    else if m.phase.Timed() then
      if e.now - m.stateTime > m.phase.Dwell() then Advance(c, m, e.now, e.late, e.bearing) else m
    else if e.now - m.pollTime < POLL_INTERVAL then m
    else Handle(c, m.(pollTime := e.now), e.late, e.report)
  }

  /** The state after some calls of `update`. */
  function Run(c: Setup, m: Machine, es: seq<Event>): Machine {
    if es == [] then m else Step(c, Run(c, m, es[..|es| - 1]), es[|es| - 1])
  }

  /** The time of the last call. */
  function Clock(from: nat, es: seq<Event>): nat {
    if es == [] then from else es[|es| - 1].late
  }

  /** The clock never goes back, within a call or between calls. */
  predicate Timely(from: nat, es: seq<Event>) {
    es == [] || (
      && Timely(from, es[..|es| - 1])
      && Clock(from, es[..|es| - 1]) <= es[|es| - 1].now <= es[|es| - 1].late)
  }

  // ---- What every run keeps ----

  /** The colours a run goes through. With no colour asked for it still goes after the one left in the first slot. */
  function Plan(list: seq<Color>, count: nat): (p: seq<Color>)
    requires |list| == 8 && count <= 8
    ensures |p| == if count == 0 then 1 else count
  {
    if count == 0 then list[..1] else list[..count]
  }

  /** The orders of the timed phases, without the tracking. */
  function Deeds(orders: seq<Order>): seq<Order> {
    if orders == [] then []
    else
      var last := orders[|orders| - 1];
      Deeds(orders[..|orders| - 1]) + if last.stage.Timed() then [last] else []
  }

  /**
   * The script: six orders a block. The jaws go down open, close, are raised where they closed, go to the place, one
   * block height higher for each block, let go, 40 higher, and go home.
   */
  predicate Scripted(c: Setup, d: seq<Order>, i: nat)
    requires i < |d|
  {
    var o, k := d[i], i / 6;
    match i % 6
    case 0 => o.stage == Down && o.z == c.grabZ && o.claw == -60.0 && o.ms == 1000
    case 1 => o.stage == Grab && o.z == c.grabZ && o.claw == 20.0 && o.ms == 500
    case 2 => o == Order(Lift, d[i - 1].x, d[i - 1].y, 220.0, 20.0, 1000)
    case 3 => o == Order(Place, c.placeX, c.placeY, c.placeZ + k as real * 30.0, 20.0, 1500)
    case 4 => o == Order(Release, c.placeX, c.placeY, c.placeZ + k as real * 30.0 + 40.0, -60.0, 500)
    case _ => o == Order(Reset, 200.0, 0.0, 200.0, -60.0, 1000)
  }

  predicate AllScripted(c: Setup, d: seq<Order>) {
    forall i :: 0 <= i < |d| ==> Scripted(c, d, i)
  }

  /** How many orders of the present block a phase has behind it. */
  function DeedsBefore(p: Phase): nat {
    match p
    case Init => 0
    case Search => 0
    case Down => 0
    case Grab => 1
    case Lift => 2
    case Place => 3
    case Release => 4
    case Reset => 5
  }

  /** The orders of a busy machine are on script, and the present block was grabbed at the grab point. */
  predicate OnScript(c: Setup, m: Machine) {
    var d, n := Deeds(m.orders), DeedsBefore(m.phase);
    && |d| == 6 * m.index + n && AllScripted(c, d)
    && (n >= 2 ==> d[6 * m.index + 1].x == m.grabX + c.xComp && d[6 * m.index + 1].y == m.grabY + c.yComp)
    && m.orders != []
    && (m.orders[|m.orders| - 1].claw == 20.0 <==> m.phase.Lift? || m.phase.Place? || m.phase.Release?)
  }

  /** Colours, counters and orders fit together; a search settles for 1 s after the start and 1.5 s after a reset. */
  predicate OnPlan(c: Setup, m: Machine) {
    && |m.list| == 8 && m.count <= 8
    && var plan := Plan(m.list, m.count);
      if m.busy then
        && m.phase != Init && m.index < |plan| && m.current == plan[m.index]
        && m.sent == plan[..m.index + 1]
        && m.stacked == m.index + (if m.phase == Reset then 1 else 0)
        && (m.phase == Search ==> m.ignoreUntil == m.stateTime + if m.index == 0 then 1000 else 1500)
        && OnScript(c, m)
      else
        && m.stacked == m.index == |plan| && m.sent == plan
        && |Deeds(m.orders)| == 6 * |plan| && AllScripted(c, Deeds(m.orders))
  }

  /**
   * The target is in reach and is what is grabbed, no elapsed time is negative, and the stability counter cannot
   * overflow.
   */
  predicate InBounds(m: Machine, clock: nat) {
    && 80.0 <= m.tx <= 320.0 && -300.0 <= m.ty <= 300.0
    && (m.busy ==> m.stateTime <= clock && m.pollTime <= clock && m.lastMove <= clock)
    && (m.stable > 0 && m.busy ==> m.stableStart <= clock)
    && (m.stable >= 2 && m.busy ==> 10 * (m.stable - 2) <= m.pollTime - m.stableStart)
    && 10 * (m.stable - 2) < 3000
    && (m.busy && m.phase.Timed() ==> m.grabX == m.tx && m.grabY == m.ty)
  }

  lemma DeedsNext(orders: seq<Order>, o: Order)
    ensures Deeds(orders + [o]) == Deeds(orders) + if o.stage.Timed() then [o] else []
  {
    assert (orders + [o])[..|orders|] == orders;
  }

  lemma StartDoesNothing(m: Machine)
    ensures var orders := (if m.busy then [Home(Init, 1500)] else []) + [Home(Search, 1000)];
      Deeds(orders) == [] && orders != [] && orders[|orders| - 1].claw == -60.0
  {
    var stopping := if m.busy then [Home(Init, 1500)] else [];
    DeedsNext([], Home(Init, 1500));
    DeedsNext(stopping, Home(Search, 1000));
    assert [] + [Home(Init, 1500)] == [Home(Init, 1500)];
  }

  lemma StartIsOnPlan(c: Setup, m: Machine, colors: seq<Color>, count: nat, at: nat)
    requires |m.list| == 8 && (if count > 8 then 8 else count) <= |colors|
    requires m.lastMove <= at
    ensures var r := Start(m, colors, count, true, at);
      OnPlan(c, r) && InBounds(r, at) && r.busy && (count > 0 ==> Plan(r.list, r.count) == colors[..r.count])
  {
    hide Deeds, Scripted;
    var r := Start(m, colors, count, true, at);
    StartDoesNothing(m);
    assert r.orders == (if m.busy then [Home(Init, 1500)] else []) + [Home(Search, 1000)];
    assert InBounds(r, at);
    hide InBounds;
    assert r.sent == [r.list[0]] == Plan(r.list, r.count)[..1];
    assert OnScript(c, r);
  }

  /** What `start` orders: home with open jaws, twice if it stops a run first; and where the search begins. */
  lemma StartOrders(m: Machine, colors: seq<Color>, count: nat, ok: bool, at: nat)
    requires |m.list| == 8 && (if count > 8 then 8 else count) <= |colors|
    ensures var r := Start(m, colors, count, ok, at);
      && r.orders == (if m.busy then [Order(Init, 200.0, 0.0, 200.0, -60.0, 1500)] else []) +
        [Order(Search, 200.0, 0.0, 200.0, -60.0, 1000)]
      && r.tx == 200.0 && r.ty == 0.0 && r.lastEx == r.lastEy == 0.0 && !r.locked && r.stable == 0
      && r.busy == ok && (ok ==> r.phase == Search && r.stateTime == r.pollTime == at)
      && r.count == (if count > 8 then 8 else count) && r.list == colors[..r.count] + m.list[r.count..]
      && r.index == r.stacked == 0 && r.current == r.list[0] && r.sent == if ok then [r.list[0]] else []
  {
  }

  /** Every later search begins there too, with the arm sent there. */
  lemma SearchesBeginAtHome(c: Setup, m: Machine, e: Event)
    requires m.busy && m.phase != Search
    ensures var r := Step(c, m, e);
      r.busy && r.phase == Search ==>
        && r.tx == 200.0 && r.ty == 0.0 && r.lastEx == r.lastEy == 0.0 && !r.locked && r.stable == 0
        && r.orders == m.orders + [Order(Reset, 200.0, 0.0, 200.0, -60.0, 1000)] && r.stateTime == e.late
  {
    hide Clamp, Correction, TurnedX, TurnedY;
  }

  /** Tracking leaves the plan alone: only the target moves, or the timed phases begin. */
  ghost predicate OnlyTracked(m: Machine, r: Machine) {
    && r.busy == m.busy && (r.phase == Search || r.phase == Down)
    && r.list == m.list && r.count == m.count && r.index == m.index && r.current == m.current
    && r.sent == m.sent && r.stacked == m.stacked
    && (r.phase == Search ==> r.ignoreUntil == m.ignoreUntil && r.stateTime == m.stateTime)
    && (r.orders == m.orders
        || exists o: Order :: r.orders == m.orders + [o] && o.stage == Search && o.claw == C_OPEN)
  }

  lemma HandleOnlyTracks(c: Setup, m: Machine, at: nat, r: Report)
    requires m.phase == Search
    ensures OnlyTracked(m, Handle(c, m, at, r))
  {
  }

  lemma TrackedDoesNothing(m: Machine, r: Machine)
    requires OnlyTracked(m, r)
    ensures Deeds(r.orders) == Deeds(m.orders)
  {
    if r.orders != m.orders {
      var o: Order :| r.orders == m.orders + [o] && o.stage == Search && o.claw == C_OPEN;
      DeedsNext(m.orders, o);
    }
    hide Deeds;
  }

  lemma TrackedIsOnPlan(c: Setup, m: Machine, r: Machine)
    requires OnPlan(c, m) && m.busy && m.phase == Search && OnlyTracked(m, r)
    ensures OnPlan(c, r)
  {
    hide Deeds, Plan, AllScripted;
    TrackedDoesNothing(m, r);
    assert DeedsBefore(r.phase) == 0 == DeedsBefore(m.phase);
    hide DeedsBefore;
  }

  /** The phase after a timed one that is not the last. */
  function Next(p: Phase): Phase
    requires p.Timed() && p != Reset
  {
    match p
    case Down => Grab
    case Grab => Lift
    case Lift => Place
    case Place => Release
    case Release => Reset
  }

  lemma AdvanceGivesOneOrder(c: Setup, m: Machine, now: nat, late: nat, b: Bearing)
    requires m.phase.Timed()
    ensures var r := Advance(c, m, now, late, b);
      && |r.orders| == |m.orders| + 1 && r.orders == m.orders + [r.orders[|m.orders|]]
      && r.orders[|m.orders|].stage == m.phase
  {
  }

  /** What is ordered when a timed phase is over. */
  predicate GivenBy(c: Setup, m: Machine, o: Order) {
    match m.phase
    case Down => o.z == c.grabZ && o.claw == -60.0 && o.ms == 1000
    case Grab => o == Order(Grab, m.grabX + c.xComp, m.grabY + c.yComp, c.grabZ, 20.0, 500)
    case Lift => o == Order(Lift, m.grabX + c.xComp, m.grabY + c.yComp, 220.0, 20.0, 1000)
    case Place => o == Order(Place, c.placeX, c.placeY, c.placeZ + m.stacked as real * 30.0, 20.0, 1500)
    case Release =>
      o == Order(Release, c.placeX, c.placeY, c.placeZ + m.stacked as real * 30.0 + 40.0, -60.0, 500)
    case _ => o == Order(Reset, 200.0, 0.0, 200.0, -60.0, 1000)
  }

  lemma AdvanceGives(c: Setup, m: Machine, now: nat, late: nat, b: Bearing)
    requires m.phase.Timed()
    ensures GivenBy(c, m, Advance(c, m, now, late, b).orders[|m.orders|])
  {
    hide TurnedX, TurnedY;
  }

  lemma AdvanceStaysInTheCycle(c: Setup, m: Machine, now: nat, late: nat, b: Bearing)
    requires m.phase.Timed() && m.phase != Reset
    ensures var r := Advance(c, m, now, late, b);
      && r == m.(phase := Next(m.phase), stateTime := now, orders := r.orders, stacked := r.stacked)
      && r.stacked == if m.phase == Release then m.stacked + 1 else m.stacked
  {
  }

  lemma Sixes(k: nat, n: nat)
    requires n < 6
    ensures (6 * k + n) / 6 == k && (6 * k + n) % 6 == n
  {
  }

  /** The order that ends the phase is the next of the script. */
  lemma NextIsScripted(c: Setup, m: Machine, o: Order)
    requires OnScript(c, m) && m.phase.Timed() && o.stage == m.phase && GivenBy(c, m, o)
    requires m.phase == Reset || m.stacked == m.index
    ensures Scripted(c, Deeds(m.orders) + [o], |Deeds(m.orders)|)
  {
    Sixes(m.index, DeedsBefore(m.phase));
    hide Deeds, AllScripted;
  }

  lemma ScriptGoesOn(c: Setup, d: seq<Order>, o: Order)
    requires AllScripted(c, d) && Scripted(c, d + [o], |d|)
    ensures AllScripted(c, d + [o])
  {
    forall i | 0 <= i < |d| ensures Scripted(c, d + [o], i) {
      assert Scripted(c, d, i) && (d + [o])[i] == d[i];
      assert i > 0 ==> (d + [o])[i - 1] == d[i - 1];
    }
  }

  lemma DeedIsScripted(c: Setup, m: Machine, now: nat, late: nat, b: Bearing)
    requires OnScript(c, m) && m.phase.Timed() && (m.phase == Reset || m.stacked == m.index)
    ensures var r := Advance(c, m, now, late, b);
      var o := r.orders[|m.orders|];
      && GivenBy(c, m, o) && r.orders == m.orders + [o]
      && Deeds(r.orders) == Deeds(m.orders) + [o] && AllScripted(c, Deeds(r.orders))
  {
    var o := Advance(c, m, now, late, b).orders[|m.orders|];
    AdvanceGivesOneOrder(c, m, now, late, b);
    AdvanceGives(c, m, now, late, b);
    DeedsNext(m.orders, o);
    hide Advance, Deeds, GivenBy, Scripted;
    NextIsScripted(c, m, o);
    ScriptGoesOn(c, Deeds(m.orders), o);
  }

  lemma CycleGoesOn(c: Setup, m: Machine, now: nat, late: nat, b: Bearing)
    requires OnPlan(c, m) && m.busy && m.phase.Timed() && m.phase != Reset
    ensures OnPlan(c, Advance(c, m, now, late, b))
  {
    DeedIsScripted(c, m, now, late, b);
    AdvanceStaysInTheCycle(c, m, now, late, b);
    hide Deeds, Plan, Advance, Scripted, AllScripted;
  }

  lemma AdvanceFromReset(c: Setup, m: Machine, now: nat, late: nat, b: Bearing)
    requires m.phase == Reset && m.busy
    ensures var r, i := Advance(c, m, now, late, b), m.index + 1;
      && r.list == m.list && r.count == m.count && r.index == i && r.stacked == m.stacked
      && if i < m.count && i < |m.list| then
           && r.busy && r.phase == Search && r.current == m.list[i] && r.sent == m.sent + [m.list[i]]
           && r.ignoreUntil == r.stateTime + 1500
         else !r.busy && r.sent == m.sent
  {
  }

  lemma PlanGoesOn(list: seq<Color>, count: nat, i: nat)
    requires |list| == 8 && count <= 8 && i < |Plan(list, count)|
    ensures i + 1 < count <==> i + 1 < |Plan(list, count)|
    ensures i + 1 < count ==>
      list[i + 1] == Plan(list, count)[i + 1] &&
      Plan(list, count)[..i + 2] == Plan(list, count)[..i + 1] + [Plan(list, count)[i + 1]]
    ensures i + 1 >= count ==> Plan(list, count)[..i + 1] == Plan(list, count) && i + 1 == |Plan(list, count)|
  {
  }

  lemma CycleEnds(c: Setup, m: Machine, now: nat, late: nat, b: Bearing)
    requires OnPlan(c, m) && m.busy && m.phase == Reset
    ensures OnPlan(c, Advance(c, m, now, late, b))
  {
    hide Deeds, Plan, Advance, Scripted, AllScripted;
    DeedIsScripted(c, m, now, late, b);
    AdvanceFromReset(c, m, now, late, b);
    PlanGoesOn(m.list, m.count, m.index);
  }

  lemma StepIsOnPlan(c: Setup, m: Machine, e: Event)
    requires OnPlan(c, m)
    ensures OnPlan(c, Step(c, m, e))
  {
    if m.busy {
      if m.phase.Timed() {
        hide Deeds, Plan, OnScript, Advance;
        if m.phase == Reset {
          CycleEnds(c, m, e.now, e.late, e.bearing);
        } else {
          CycleGoesOn(c, m, e.now, e.late, e.bearing);
        }
      } else {
        var polled := m.(pollTime := e.now);
        HandleOnlyTracks(c, polled, e.late, e.report);
        hide Deeds, Plan, AllScripted;
        assert OnPlan(c, polled);
        TrackedIsOnPlan(c, polled, Handle(c, polled, e.late, e.report));
      }
    }
  }

  lemma HandleIsInBounds(c: Setup, m: Machine, at: nat, r: Report)
    requires InBounds(m, at) && m.busy && m.phase == Search && (m.stable > 0 ==> m.stableStart <= m.pollTime)
    requires m.stable >= 1 ==> 10 * (m.stable - 1) <= m.pollTime - m.stableStart
    ensures InBounds(Handle(c, m, at, r), at)
  {
    hide Clamp;
  }

  lemma AdvanceIsInBounds(c: Setup, m: Machine, now: nat, late: nat, b: Bearing)
    requires InBounds(m, now) && m.busy && m.phase.Timed() && now <= late
    ensures InBounds(Advance(c, m, now, late, b), late)
  {
  }

  lemma StepIsInBounds(c: Setup, m: Machine, clock: nat, e: Event)
    requires InBounds(m, clock) && clock <= e.now <= e.late && (m.busy ==> m.phase != Init)
    ensures InBounds(Step(c, m, e), e.late)
  {
    hide Advance, Handle;
    if m.busy && m.phase.Timed() {
      AdvanceIsInBounds(c, m, e.now, e.late, e.bearing);
    } else if m.busy && e.now - m.pollTime >= POLL_INTERVAL {
      HandleIsInBounds(c, m.(pollTime := e.now), e.late, e.report);
    }
  }

  lemma {:induction false} RunKeeps(c: Setup, m: Machine, from: nat, es: seq<Event>)
    requires OnPlan(c, m) && InBounds(m, from) && Timely(from, es)
    ensures OnPlan(c, Run(c, m, es)) && InBounds(Run(c, m, es), Clock(from, es))
  {
    if es != [] {
      var before := es[..|es| - 1];
      RunKeeps(c, m, from, before);
      hide OnPlan, InBounds, Step;
      StepIsOnPlan(c, Run(c, m, before), es[|es| - 1]);
      StepIsInBounds(c, Run(c, m, before), Clock(from, before), es[|es| - 1]);
    }
  }

  lemma StepKeepsTheList(c: Setup, m: Machine, e: Event)
    ensures Step(c, m, e).list == m.list && Step(c, m, e).count == m.count
  {
    hide Clamp, Correction;
  }

  lemma {:induction false} RunKeepsTheList(c: Setup, m: Machine, es: seq<Event>)
    ensures Run(c, m, es).list == m.list && Run(c, m, es).count == m.count
  {
    if es != [] {
      StepKeepsTheList(c, Run(c, m, es[..|es| - 1]), es[|es| - 1]);
      hide Step;
      RunKeepsTheList(c, m, es[..|es| - 1]);
    }
  }

  /**
   * The colours are targeted once each in list order, each block is grabbed, raised, placed and let go as scripted,
   * the k-th one at PLACE_Z + k * BLOCK_H, and the stack is level with the colour index until the release, one ahead
   * until the next search; at the end everything is stacked.
   */
  predicate FollowsThePlan(c: Setup, colors: seq<Color>, count: nat, r: Machine) {
    && count <= |colors| && AllScripted(c, Deeds(r.orders))
    && if r.busy then
      && r.index < count && r.sent == colors[..r.index + 1] && r.current == colors[r.index]
      && r.stacked == r.index + (if r.phase == Reset then 1 else 0)
      && |Deeds(r.orders)| == 6 * r.index + DeedsBefore(r.phase)
    else
      r.stacked == count && r.sent == colors[..count] && |Deeds(r.orders)| == 6 * count
  }

  lemma OnPlanFollows(c: Setup, colors: seq<Color>, count: nat, r: Machine)
    requires OnPlan(c, r) && 1 <= count == r.count && count <= |colors| && Plan(r.list, count) == colors[..count]
    ensures FollowsThePlan(c, colors, count, r)
  {
    assert r.busy ==> colors[..count][..r.index + 1] == colors[..r.index + 1];
    hide Deeds, AllScripted, Plan, DeedsBefore;
  }

  /** So it is in any run after a successful start with one to eight colours, at any moment. */
  lemma RunsFollowThePlan(c: Setup, m: Machine, colors: seq<Color>, count: nat, at: nat, es: seq<Event>)
    requires |m.list| == 8 && 1 <= count <= 8 && count <= |colors|
    requires m.lastMove <= at && Timely(at, es)
    ensures FollowsThePlan(c, colors, count, Run(c, Start(m, colors, count, true, at), es))
    ensures InBounds(Run(c, Start(m, colors, count, true, at), es), Clock(at, es))
  {
    var s := Start(m, colors, count, true, at);
    assert s.count == count;
    hide *;
    StartIsOnPlan(c, m, colors, count, at);
    RunKeeps(c, s, at, es);
    RunKeepsTheList(c, s, es);
    OnPlanFollows(c, colors, count, Run(c, s, es));
  }

  /** A finished run has stacked what was asked for exactly if that was one to eight; asked for none it stacks one. */
  lemma StacksTheRequestIff(c: Setup, m: Machine, colors: seq<Color>, count: nat, at: nat, es: seq<Event>)
    requires |m.list| == 8 && (if count > 8 then 8 else count) <= |colors|
    requires m.lastMove <= at && Timely(at, es) && !Run(c, Start(m, colors, count, true, at), es).busy
    ensures var r := Run(c, Start(m, colors, count, true, at), es);
      && (r.stacked == count <==> 1 <= count <= 8)
      && (count == 0 ==> r.stacked == 1 && r.sent == [m.list[0]])
      && (count > 8 ==> r.stacked == 8)
  {
    StartIsOnPlan(c, m, colors, count, at);
    RunKeeps(c, Start(m, colors, count, true, at), at, es);
    RunKeepsTheList(c, Start(m, colors, count, true, at), es);
    hide Run, Deeds, AllScripted, InBounds;
  }

  // ---- How long it takes ----

  /** When a phase begins at the earliest, in ms after the descent is decided. */
  function Earliest(p: Phase): nat
    requires p.Timed()
  {
    match p
    case Down => 0
    case Grab => 101
    case Lift => 2602
    case Place => 3403
    case Release => 4904
    case Reset => 6705
  }

  /** A call ends a timed phase exactly if it comes late enough. */
  lemma PhaseEndsIff(c: Setup, m: Machine, e: Event)
    requires m.busy && m.phase.Timed()
    ensures var dwell :=
        match m.phase
        case Down => 100 case Grab => 2500 case Lift => 800 case Place => 1500 case Release => 1800 case Reset => 1000;
      Step(c, m, e) != m <==> e.now - m.stateTime > dwell
  {
    AdvanceGivesOneOrder(c, m, e.now, e.late, e.bearing);
    hide Advance;
  }

  lemma PhaseBegins(c: Setup, m: Machine, e: Event)
    requires m.busy && m.phase.Timed() && Step(c, m, e) != m
    ensures var r := Step(c, m, e);
      && (m.phase != Reset ==>
        && r.busy && r.phase == Next(m.phase) && r.index == m.index
        && r.stateTime == e.now >= m.stateTime + Earliest(r.phase) - Earliest(m.phase))
      && (m.phase == Reset ==> r.index == m.index + 1 && e.now >= m.stateTime + 1001)
  {
    PhaseEndsIff(c, m, e);
    if m.phase == Reset {
      AdvanceFromReset(c, m, e.now, e.late, e.bearing);
    } else {
      AdvanceStaysInTheCycle(c, m, e.now, e.late, e.bearing);
    }
    hide Advance;
  }

  lemma IndexNeverFalls(c: Setup, m: Machine, e: Event)
    ensures Step(c, m, e).index >= m.index
  {
    hide Clamp, Correction;
  }

  /** While the block is not done, each phase begins no earlier than it may, counted from the decision to go down. */
  lemma {:induction false} BlocksTakeTheirTime(c: Setup, m: Machine, es: seq<Event>)
    requires m.busy && m.phase == Down
    ensures var r := Run(c, m, es);
      && r.index >= m.index
      && (r.index == m.index ==> r.busy && r.phase.Timed() && r.stateTime >= m.stateTime + Earliest(r.phase))
  {
    if es != [] {
      var q, e := Run(c, m, es[..|es| - 1]), es[|es| - 1];
      BlocksTakeTheirTime(c, m, es[..|es| - 1]);
      IndexNeverFalls(c, q, e);
      hide Step;
      if q.index == m.index && Step(c, q, e) != q {
        PhaseBegins(c, q, e);
      }
    }
  }

  /** And the arm is back for the next block no earlier than 7.7 s after it. */
  lemma BlocksEndNoEarlier(c: Setup, m: Machine, es: seq<Event>, e: Event)
    requires m.busy && m.phase == Down && Run(c, m, es).index == m.index
    requires Step(c, Run(c, m, es), e).index > m.index
    ensures e.now > m.stateTime + 7700
  {
    var q := Run(c, m, es);
    BlocksTakeTheirTime(c, m, es);
    hide Run, Step;
    PhaseBegins(c, q, e);
  }

  // ---- Every run can finish ----

  lemma {:induction false} RunCons(c: Setup, m: Machine, e: Event, es: seq<Event>)
    ensures Run(c, m, [e] + es) == Run(c, Step(c, m, e), es)
  {
    hide Step;
    if es == [] {
      assert [e] + es == [e] && [e][..0] == [];
    } else {
      var all := [e] + es;
      assert all[..|all| - 1] == [e] + es[..|es| - 1];
      RunCons(c, m, e, es[..|es| - 1]);
    }
  }

  lemma {:induction false} TimelyCons(from: nat, e: Event, es: seq<Event>)
    requires from <= e.now <= e.late && Timely(e.late, es)
    ensures Timely(from, [e] + es)
  {
    if es == [] {
      var all := [e] + es;
      assert all[..|all| - 1] == [] && all[|all| - 1] == e;
      assert Timely(from, all[..|all| - 1]) && Clock(from, all[..|all| - 1]) == from;
    } else {
      var all := [e] + es;
      assert all[..|all| - 1] == [e] + es[..|es| - 1];
      TimelyCons(from, e, es[..|es| - 1]);
      assert Clock(from, all[..|all| - 1]) == Clock(e.late, es[..|es| - 1]);
    }
  }

  /** How far the machine is from its end: eight stages for each colour still to do. */
  function Remaining(m: Machine): nat
    requires |m.list| == 8 && m.count <= 8 && m.busy && m.index < |Plan(m.list, m.count)|
  {
    8 * (|Plan(m.list, m.count)| - m.index) +
    match m.phase
    case Search => if m.stable == 0 then 0 else -1
    case _ => -2 - DeedsBefore(m.phase)
  }

  function Max(a: nat, b: nat): nat {
    if a < b then b else a
  }

  /** A call late enough to get on with it; in the search, one that sees the block in the middle. */
  function Towards(m: Machine, clock: nat, b: Bearing): Event {
    if m.phase.Timed() then
      var t := Max(clock, m.stateTime + m.phase.Dwell() + 1);
      Tick(t, t, Nothing, b)
    else
      var t := Max(Max(clock, m.pollTime + POLL_INTERVAL), Max(m.ignoreUntil, m.stableStart + STABLE_MS));
      Tick(t, t, Seen(160, 120), b)
  }

  lemma SearchAdvances(c: Setup, m: Machine, clock: nat, b: Bearing)
    requires OnPlan(c, m) && m.busy && m.phase == Search
    ensures var r := Step(c, m, Towards(m, clock, b));
      r.busy && OnPlan(c, r) && Remaining(r) == Remaining(m) - 1
  {
    var e := Towards(m, clock, b);
    StepIsOnPlan(c, m, e);
    assert Handle(c, m.(pollTime := e.now), e.late, e.report) == Steady(m.(pollTime := e.now), e.late);
    hide OnPlan, Plan;
  }

  lemma PhaseAdvances(c: Setup, m: Machine, clock: nat, b: Bearing)
    requires OnPlan(c, m) && m.busy && m.phase.Timed()
    ensures var r := Step(c, m, Towards(m, clock, b));
      OnPlan(c, r) && (r.busy ==> Remaining(r) < Remaining(m))
  {
    var e := Towards(m, clock, b);
    StepIsOnPlan(c, m, e);
    assert Step(c, m, e) == Advance(c, m, e.now, e.late, b);
    if m.phase == Reset {
      AdvanceFromReset(c, m, e.now, e.late, b);
      NextSearchIsFresh(c, m, e.now, e.late, b);
    } else {
      AdvanceStaysInTheCycle(c, m, e.now, e.late, b);
    }
    hide Step, Advance;
  }

  lemma NextSearchIsFresh(c: Setup, m: Machine, now: nat, late: nat, b: Bearing)
    requires m.phase == Reset && m.busy
    ensures var r := Advance(c, m, now, late, b); r.busy ==> r.stable == 0
  {
  }

  /** From every state of a run some timely calls, with the block in view, bring it to its end. */
  lemma {:induction false} RunsCanFinish(c: Setup, m: Machine, clock: nat, b: Bearing) returns (es: seq<Event>)
    requires OnPlan(c, m)
    ensures Timely(clock, es) && OnPlan(c, Run(c, m, es)) && !Run(c, m, es).busy
    decreases if m.busy then Remaining(m) + 1 else 0
  {
    if !m.busy {
      es := [];
    } else {
      var e := Towards(m, clock, b);
      if m.phase == Search {
        SearchAdvances(c, m, clock, b);
      } else {
        PhaseAdvances(c, m, clock, b);
      }
      assert clock <= e.now == e.late;
      hide Step, OnPlan, Remaining;
      var rest := RunsCanFinish(c, Step(c, m, e), e.late, b);
      es := [e] + rest;
      RunCons(c, m, e, rest);
      TimelyCons(clock, e, rest);
    }
  }

  /**
   * So every run of one to eight colours, wherever it stands, can go on to the end and then has stacked them all, if
   * reports reach it; GrabberLink says when the mailbox lets them through.
   */
  lemma EveryRunCanFinish(
      c: Setup, m: Machine, colors: seq<Color>, count: nat, at: nat, es: seq<Event>, b: Bearing)
    returns (more: seq<Event>)
    requires |m.list| == 8 && 1 <= count <= 8 && count <= |colors|
    requires m.lastMove <= at && Timely(at, es)
    ensures Timely(Clock(at, es), more)
    ensures var r := Run(c, Run(c, Start(m, colors, count, true, at), es), more);
      FollowsThePlan(c, colors, count, r) && !r.busy && r.stacked == count
  {
    var s := Start(m, colors, count, true, at);
    var q := Run(c, s, es);
    assert s.count == count;
    StartIsOnPlan(c, m, colors, count, at);
    RunKeeps(c, s, at, es);
    hide Run, Start, OnPlan, InBounds, Timely, Deeds, AllScripted;
    more := RunsCanFinish(c, q, Clock(at, es), b);
    RunKeepsTheList(c, s, es);
    RunKeepsTheList(c, q, more);
    OnPlanFollows(c, colors, count, Run(c, q, more));
  }
}
