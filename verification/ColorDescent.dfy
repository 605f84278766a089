/** Where the jaws go down and where they close. */
module ColorDescent {
  import opened Reals
  import opened ColorStack
  import opened ColorSearch

  /** The direction of a point, as `atan2f` and its cosine and sine give it. */
  predicate IsBearingOf(b: Bearing, x: real, y: real) {
    && b.cos * b.cos + b.sin * b.sin == 1.0 && b.cos * y == b.sin * x
    && (x > 0.0 ==> b.cos > 0.0)
  }

  /**
   * The jaws go down beside the grab point by the calibration offset, turned but not stretched: its first component
   * lies along the bearing, its second to the left of it.
   */
  lemma DescentKeepsTheOffset(c: Setup, b: Bearing)
    requires b.cos * b.cos + b.sin * b.sin == 1.0
    ensures TurnedX(c, b) * TurnedX(c, b) + TurnedY(c, b) * TurnedY(c, b) == c.xComp * c.xComp + c.yComp * c.yComp
    ensures b.cos * TurnedX(c, b) + b.sin * TurnedY(c, b) == c.xComp
    ensures b.cos * TurnedY(c, b) - b.sin * TurnedX(c, b) == c.yComp
  {
    var x, y, norm := c.xComp, c.yComp, b.cos * b.cos + b.sin * b.sin;
    assert b.cos * TurnedX(c, b) + b.sin * TurnedY(c, b) == x * norm;
    assert b.cos * TurnedY(c, b) - b.sin * TurnedX(c, b) == y * norm;
    assert TurnedX(c, b) * TurnedX(c, b) + TurnedY(c, b) * TurnedY(c, b) == (x * x + y * y) * norm;
  }

  /** A point in front of the arm lies straight ahead exactly if its bearing has no sine, and then the cosine is 1. */
  lemma StraightAhead(b: Bearing, x: real, y: real)
    requires IsBearingOf(b, x, y) && x > 0.0
    ensures y == 0.0 <==> b == Bearing(1.0, 0.0)
  {
    if y == 0.0 {
      ZeroProduct(b.sin, x);
      UnitCosine(b.cos);
    } else if b.sin == 0.0 {
      ZeroProduct(b.cos, y);
    }
  }

  lemma UnitCosine(cos: real)
    requires cos > 0.0 && cos * cos == 1.0
    ensures cos == 1.0
  {
    assert (cos - 1.0) * (cos + 1.0) == cos * cos - 1.0;
    ZeroProduct(cos - 1.0, cos + 1.0);
  }

  /** Turning by an angle leaves a vector where it is exactly if the angle or the vector is nothing. */
  lemma TurnIsIdentityIff(x: real, y: real, cos: real, sin: real)
    requires cos * cos + sin * sin == 1.0
    ensures x * cos - y * sin == x && x * sin + y * cos == y <==> (cos == 1.0 && sin == 0.0) || x == y == 0.0
  {
    if x * cos - y * sin == x && x * sin + y * cos == y {
      var p, q, norm := x * cos - y * sin - x, x * sin + y * cos - y, cos * cos + sin * sin;
      assert p * (cos - 1.0) + q * sin == x * (norm - 2.0 * cos + 1.0);
      assert q * (cos - 1.0) - p * sin == y * (norm - 2.0 * cos + 1.0);
      ZeroProduct(x, 2.0 - 2.0 * cos);
      ZeroProduct(y, 2.0 - 2.0 * cos);
      if cos == 1.0 && sin != 0.0 {
        ZeroProduct(y, sin);
        ZeroProduct(x, sin);
      }
    }
  }

  /** In a reachable state the grab point is in front of the arm. */
  lemma GrabPointIsInFront(m: Machine, clock: nat)
    requires InBounds(m, clock) && m.busy && m.phase.Timed()
    ensures 80.0 <= m.grabX <= 320.0 && -300.0 <= m.grabY <= 300.0
  {
  }

  /** Leaving DOWN and leaving GRAB give these orders. */
  lemma DescentAndGrip(c: Setup, m: Machine, b: Bearing, t1: nat, t2: nat)
    requires m.phase == Down
    ensures var down := Advance(c, m, t1, t1, b);
      var closed := Advance(c, down, t2, t2, b);
      closed.orders == m.orders + [
        Order(Down, m.grabX + TurnedX(c, b), m.grabY + TurnedY(c, b), c.grabZ, C_OPEN, 1000),
        Order(Grab, m.grabX + c.xComp, m.grabY + c.yComp, c.grabZ, C_CLOSE, 500)]
  {
    hide TurnedX, TurnedY;
  }

  /** The order that closes the jaws sends the arm where the one that lowered them did. */
  predicate ClosesWhereItDescends(c: Setup, m: Machine, b: Bearing, t1: nat, t2: nat)
    requires m.phase == Down
  {
    var down := Advance(c, m, t1, t1, b);
    var o := down.orders[|m.orders|];
    ArmSentTo(Advance(c, down, t2, t2, b), o.x, o.y)
  }

  /**
   * In every reachable state of a run, with the bearing computed from the grab point, the jaws close where they went
   * down exactly if the grab point lies straight ahead or there is no calibration offset.
   */
  lemma ClosesWhereItDescendsIff(c: Setup, m: Machine, clock: nat, b: Bearing, t1: nat, t2: nat)
    requires InBounds(m, clock) && m.busy && m.phase == Down && IsBearingOf(b, m.grabX, m.grabY)
    ensures ClosesWhereItDescends(c, m, b, t1, t2) <==> m.grabY == 0.0 || c.xComp == c.yComp == 0.0
  {
    DescentAndGrip(c, m, b, t1, t2);
    GrabPointIsInFront(m, clock);
    StraightAhead(b, m.grabX, m.grabY);
    TurnIsIdentityIff(c.xComp, c.yComp, b.cos, b.sin);
    hide IsBearingOf, InBounds;
  }

  /**
   * It happens that they do not: with the default gains and an offset, one report 97 columns and 95 rows off the
   * middle and three seconds in the middle set the grab point to (208, 8.16), whose bearing is (1300, 51) / 1301.
   */
  lemma JawsCanCloseElsewhere(c: Setup, idle: Machine, color: Color, b: Bearing)
    requires c.kp == 0.08 && c.kd == 0.01 && !idle.busy && idle.lastMove == 0 && |idle.list| == 8
    requires !(c.xComp == c.yComp == 0.0) && b == Bearing(1300.0 / 1301.0, 51.0 / 1301.0)
    ensures var es := [Tick(1000, 1000, Seen(63, 25), b), Tick(1040, 1040, Seen(160, 120), b),
                       Tick(4030, 4030, Seen(160, 120), b), Tick(4040, 4040, Seen(160, 120), b)];
      var r := Run(c, Start(idle, [color], 1, true, 0), es);
      && Timely(0, es) && r.busy && r.phase == Down && r.grabX == 208.0 && r.grabY == 8.16
      && IsBearingOf(b, r.grabX, r.grabY) && !ClosesWhereItDescends(c, r, b, 4141, 6642)
  {
    var off, mid := Tick(1000, 1000, Seen(63, 25), b), Tick(1040, 1040, Seen(160, 120), b);
    var still, late := Tick(4030, 4030, Seen(160, 120), b), Tick(4040, 4040, Seen(160, 120), b);
    var m := Start(idle, [color], 1, true, 0);
    var m1 := Step(c, m, off);
    assert m1 == m.(pollTime := 1000, lastEx := 97.0, lastEy := 95.0, tx := 208.0, ty := 8.16, lastMove := 1000,
                    orders := m.orders + [Order(Search, 208.0, 8.16, S_Z, C_OPEN, 30)]);
    var m2 := Step(c, m1, mid);
    assert m2 == m1.(pollTime := 1040, lastEx := 0.0, lastEy := 0.0, locked := true, stable := 1, stableStart := 1040);
    var m3 := Step(c, m2, still);
    assert m3 == m2.(pollTime := 4030, stable := 2);
    var r := Step(c, m3, late);
    assert r.busy && r.phase == Down && r.grabX == r.tx == 208.0 && r.grabY == r.ty == 8.16;
    assert IsBearingOf(b, 208.0, 8.16);
    DescentAndGrip(c, r, b, 4141, 6642);
    TurnIsIdentityIff(c.xComp, c.yComp, b.cos, b.sin);
    hide Step, Run, Start, Timely, Advance;
    Four(c, m, 0, off, mid, still, late);
  }
}
