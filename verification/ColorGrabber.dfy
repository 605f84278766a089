/** The object the firmware keeps for stacking by colour, with its fields in a few records. */
module Grabber {
  import opened ColorStack

  /** `_color_list`, `_color_count`, `_color_index`, `_stack_count`, `_current_color` */
  datatype Queue = Queue(list: seq<Color>, count: nat, index: nat, stacked: nat, current: Color)

  /** `_f_tx`, `_f_ty`, `_last_ex`, `_last_ey`, `_center_locked`, `_stableCount`, `_stable_start_time` */
  datatype Aim = Aim(tx: real, ty: real, lastEx: real, lastEy: real, locked: bool, stable: nat, stableStart: nat)

  /** `_last_state_time`, `_last_i2c_time`, `_ignore_data_until` and the static `last_move` */
  datatype Timers = Timers(state: nat, i2c: nat, ignoreUntil: nat, lastMove: nat)

  class ColorGrabber {
    const c: Setup
    var busy: bool
    var currentState: Phase
    var queue: Queue
    var aim: Aim
    var grabX: real
    var grabY: real
    var timers: Timers
    var sent: seq<Color>
    var orders: seq<Order>

    ghost function State(): Machine
      reads this
    {
      Machine(busy, currentState, queue.list, queue.count, queue.index, queue.stacked, queue.current,
              aim.tx, aim.ty, aim.lastEx, aim.lastEy, aim.locked, aim.stable, aim.stableStart, grabX, grabY,
              timers.state, timers.i2c, timers.ignoreUntil, timers.lastMove, sent, orders)
    }

    constructor (setup: Setup)
      ensures c == setup && !busy && currentState == Init && |queue.list| == MAX_COLORS && timers.lastMove == 0
    {
      c := setup;
      busy, currentState := false, Init;
      queue := Queue(seq(MAX_COLORS, _ => Color("")), 0, 0, 0, Color(""));
      aim := Aim(S_X, S_Y, 0.0, 0.0, false, 0, 0);
      grabX, grabY, timers := S_X, S_Y, Timers(0, 0, 0, 0);
      sent, orders := [], [];
    }

    /** Take over the colours and forget the previous run. */
    method TakeColors(colors: seq<Color>, n: nat)
      requires |queue.list| == MAX_COLORS && n <= MAX_COLORS && n <= |colors|
      modifies `queue
      ensures var list := colors[..n] + old(queue.list)[n..];
        queue == Queue(list, n, 0, 0, list[0])
    {
      var list := queue.list;
      var i := 0;
      while i < n
        invariant i <= n && |list| == MAX_COLORS
        invariant forall k :: 0 <= k < MAX_COLORS ==> list[k] == if k < i then colors[k] else queue.list[k]
      {
        list := list[i := colors[i]];
        i := i + 1;
      }
      assert list == colors[..n] + queue.list[n..];
      queue := Queue(list, n, 0, 0, list[0]);
    }

    method Recentre()
      modifies `aim
      ensures aim == Aim(S_X, S_Y, 0.0, 0.0, false, 0, old(aim).stableStart)
    {
      aim := aim.(tx := S_X, ty := S_Y, lastEx := 0.0, lastEy := 0.0, locked := false, stable := 0);
    }

    method Start(colors: seq<Color>, count: nat, mailboxOk: bool, at: nat)
      requires |queue.list| == MAX_COLORS && (if count > MAX_COLORS then MAX_COLORS else count) <= |colors|
      modifies this
      ensures State() == ColorStack.Start(old(State()), colors, count, mailboxOk, at)
    {
      orders := if busy then [Home(Init, 1500)] else [];
      TakeColors(colors, if count > MAX_COLORS then MAX_COLORS else count);
      Recentre();
      orders := orders + [Home(Search, 1000)];
      busy, sent := mailboxOk, [];
      if mailboxOk {
        sent, currentState := [queue.current], Search;
        timers := timers.(state := at, i2c := at, ignoreUntil := at + 1000);
      }
    }

    method Forget()
      modifies `aim
      ensures aim == old(aim).(lastEx := 0.0, lastEy := 0.0, stable := 0)
    {
      aim := aim.(lastEx := 0.0, lastEy := 0.0, stable := 0);
    }

    /** The block is in the middle: run the stability timer. */
    method Hold(at: nat)
      modifies this
      ensures State() == Steady(old(State()), at)
    {
      aim := aim.(locked := true, lastEx := 0.0, lastEy := 0.0);
      if aim.stable == 0 {
        aim := aim.(stableStart := at);
      }
      aim := aim.(stable := aim.stable + 1);
      if at - aim.stableStart >= STABLE_MS {
        grabX, grabY := aim.tx, aim.ty;
        currentState := Down;
        timers := timers.(state := at);
        aim := aim.(stable := 0);
      }
    }

    /** The block is off the middle: correct the target and, at most every 40 ms, move the arm. */
    method Pursue(ex: int, ey: int, at: nat)
      modifies this
      ensures State() == Track(c, old(State()), ex, ey, at)
    {
      hide Clamp, Correction;
      var outX := Correction(c, ey, aim.lastEy);
      var outY := Correction(c, ex, aim.lastEx);
      aim := aim.(locked := false, stable := 0, lastEx := ex as real, lastEy := ey as real,
                  tx := Clamp(aim.tx + outX, S_X - 120.0, S_X + 120.0), ty := Clamp(aim.ty + outY, -300.0, 300.0));
      if at - timers.lastMove >= MOVE_INTERVAL {
        orders := orders + [Order(Search, aim.tx, aim.ty, S_Z, C_OPEN, 30)];
        timers := timers.(lastMove := at);
      }
    }

    method HandleColor(report: Report, at: nat)
      requires report.Lost? || report.Seen?
      modifies this
      ensures State() == ColorStack.HandleColor(c, old(State()), at, report)
    {
      hide Track, Steady;
      if currentState != Search || at < timers.ignoreUntil {
        return;
      }
      if report.Lost? {
        Forget();
        return;
      }
      var ex, ey := 160 - report.cx, 120 - report.cy;
      if 0 - CENTER_DEADBAND <= ex <= CENTER_DEADBAND && 0 - CENTER_DEADBAND <= ey <= CENTER_DEADBAND {
        Hold(at);
        return;
      }
      if aim.locked
         && 0 - CENTER_RELEASE_BAND <= ex <= CENTER_RELEASE_BAND
         && 0 - CENTER_RELEASE_BAND <= ey <= CENTER_RELEASE_BAND {
        aim := aim.(stable := 0);
      } else {
        Pursue(ex, ey, at);
      }
    }

    method Update(now: nat, late: nat, report: Report, b: Bearing)
      requires |queue.list| == MAX_COLORS && queue.count <= MAX_COLORS
      modifies this
      ensures State() == Step(c, old(State()), Tick(now, late, report, b))
    {
      hide Track, Steady, Advance, ColorStack.HandleColor;
      if !busy {
        return;
      }
      if currentState.Timed() {
        if now - timers.state > currentState.Dwell() {
          Grabbing(now, late, b);
        }
        return;
      }
      if now - timers.i2c < POLL_INTERVAL {
        return;
      }
      timers := timers.(i2c := now);
      match report
      case Nothing =>
      case EmptyBox =>
        if currentState == Search {
          Forget();
        }
      case _ =>
        HandleColor(report, late);
    }

    method NextPhase(next: Phase, now: nat, order: Order)
      modifies `orders, `currentState, `timers
      ensures orders == old(orders) + [order] && currentState == next && timers == old(timers).(state := now)
    {
      orders := orders + [order];
      currentState := next;
      timers := timers.(state := now);
    }

    method NextColor(late: nat)
      requires |queue.list| == MAX_COLORS && queue.count <= MAX_COLORS
      modifies this
      ensures State() == ColorStack.NextColor(old(State()), late)
    {
      queue := queue.(index := queue.index + 1);
      orders := orders + [Home(Reset, 1000)];
      if queue.index < queue.count {
        queue := queue.(current := queue.list[queue.index]);
        sent := sent + [queue.current];
        Recentre();
        currentState := Search;
        timers := timers.(ignoreUntil := late + 1500, state := late);
      } else {
        busy := false;
      }
    }

    /** The switch over the grab states, once the phase's time is up. */
    method Grabbing(now: nat, late: nat, b: Bearing)
      requires currentState.Timed() && |queue.list| == MAX_COLORS && queue.count <= MAX_COLORS
      modifies this
      ensures State() == Advance(c, old(State()), now, late, b)
    {
      hide ColorStack.NextColor, TurnedX, TurnedY;
      match currentState
      case Down =>
        var rx, ry := TurnedX(c, b), TurnedY(c, b);
        NextPhase(Grab, now, Order(Down, grabX + rx, grabY + ry, c.grabZ, C_OPEN, 1000));
      case Grab =>
        NextPhase(Lift, now, Order(Grab, grabX + c.xComp, grabY + c.yComp, c.grabZ, C_CLOSE, 500));
      case Lift =>
        NextPhase(Place, now, Order(Lift, grabX + c.xComp, grabY + c.yComp, LIFT_Z, C_CLOSE, 1000));
      case Place =>
        var pz := StackHeight(c, queue.stacked);
        NextPhase(Release, now, Order(Place, c.placeX, c.placeY, pz, C_CLOSE, 1500));
      case Release =>
        var rz := StackHeight(c, queue.stacked) + 40.0;
        NextPhase(Reset, now, Order(Release, c.placeX, c.placeY, rz, C_OPEN, 500));
        queue := queue.(stacked := queue.stacked + 1);
      case Reset =>
        NextColor(late);
    }
  }
}
