/** Calibrating a leader arm: what an arm reports for raw encoder ticks, and the offsets that
    make it report a known pose. Angles are in ticks, so half a turn is 2048. */
module Leader {
  import opened Common

  const NUM_ARM_JOINTS := 6
  const TURN := 4096.0
  const HALF_TURN := 2048.0

  /** One joint of the configuration. */
  datatype Joint = Joint(scale: real, sign: real, offset: real)

  predicate PlusMinusOne(x: real) {
    x == 1.0 || x == -1.0
  }

  predicate Usual(j: Joint) {
    PlusMinusOne(j.scale) && PlusMinusOne(j.sign)
  }

  predicate Invertible(j: Joint) {
    j.scale != 0.0 && j.sign != 0.0
  }

  /** An angle brought into [-half turn, half turn). */
  function Wrap(x: real): real {
    ModReal(x + HALF_TURN, TURN) - HALF_TURN
  }

  /** What the agent publishes for a joint. */
  function Reported(raw: real, ticks: real, j: Joint): real {
    var calibrated := (raw + ticks) * j.scale;
    var rad := calibrated - HALF_TURN;
    j.sign * Wrap(rad) + j.offset
  }

  /** The tick offset that should make the joint report `q`. */
  function Solve(raw: real, q: real, j: Joint): real
    requires Invertible(j)
  {
    var rad := (q - j.offset) / j.sign;
    var calibrated := rad + HALF_TURN;
    Wrap(calibrated / j.scale - raw)
  }

  // ---- wrapping ---------------------------------------------------------------------

  lemma WrapBounds(x: real)
    ensures -HALF_TURN <= Wrap(x) < HALF_TURN
  {
    ModRealBounds(x + HALF_TURN, TURN);
  }

  /** Wrapping takes whole turns off. */
  lemma WrapTurns(x: real) returns (k: int)
    ensures Wrap(x) == x - k as real * TURN
  {
    k := ((x + HALF_TURN) / TURN).Floor;
  }

  lemma SameTurns(a: real, b: real, k: int)
    requires -HALF_TURN <= a < HALF_TURN && -HALF_TURN <= b < HALF_TURN && a - b == k as real * TURN
    ensures a == b
  {
    if k != 0 {
      FarAway(k);
    }
  }

  /** Angles a whole number of turns apart wrap to the same value. */
  lemma WrapPeriodic(x: real, k: int)
    ensures Wrap(x + k as real * TURN) == Wrap(x)
  {
    WrapBounds(x);
    WrapBounds(x + k as real * TURN);
    var a := WrapTurns(x);
    var b := WrapTurns(x + k as real * TURN);
    SameTurns(Wrap(x + k as real * TURN), Wrap(x), k - b + a);
  }

  lemma WrapFixed(x: real)
    ensures Wrap(x) == x <==> -HALF_TURN <= x < HALF_TURN
  {
    WrapBounds(x);
    if -HALF_TURN <= x < HALF_TURN {
      var k := WrapTurns(x);
      SameTurns(x, Wrap(x), k);
    }
  }

  // ---- the inverse ------------------------------------------------------------------

  /** The signed, offset-free value of a reference angle. */
  function Free(q: real, j: Joint): real {
    j.sign * (q - j.offset)
  }

  lemma SolvedTurns(raw: real, q: real, j: Joint) returns (k: int)
    requires Usual(j)
    ensures (raw + Solve(raw, q, j)) * j.scale - HALF_TURN == Free(q, j) + k as real * TURN
  {
    var off := (Free(q, j) + HALF_TURN) / j.scale - raw;
    assert (q - j.offset) / j.sign == Free(q, j);
    var turns := WrapTurns(off);
    assert Solve(raw, q, j) == off - turns as real * TURN;
    k := if j.scale == 1.0 then -turns else turns;
  }

  /** An offset off by `d` ticks from the solved one shifts the free value by `d`, up to the
      wrap. */
  lemma ReportedNearSolved(raw: real, q: real, j: Joint, d: real)
    requires Usual(j)
    ensures Reported(raw, Solve(raw, q, j) + d, j) == j.sign * Wrap(Free(q, j) + j.scale * d) + j.offset
  {
    var k := SolvedTurns(raw, q, j);
    WrapPeriodic(Free(q, j) + j.scale * d, k);
    assert (raw + (Solve(raw, q, j) + d)) * j.scale == (raw + Solve(raw, q, j)) * j.scale + j.scale * d;
  }

  /** With the solved offset the joint reports the reference angle exactly when its free
      value lies in [-half turn, half turn); the offset itself is always brought into that
      range. */
  lemma SolveInverts(raw: real, q: real, j: Joint)
    requires Usual(j)
    ensures Reported(raw, Solve(raw, q, j), j) == q <==> -HALF_TURN <= Free(q, j) < HALF_TURN
    ensures -HALF_TURN <= Solve(raw, q, j) < HALF_TURN
  {
    ReportedNearSolved(raw, q, j, 0.0);
    WrapFixed(Free(q, j));
    WrapBounds((Free(q, j) + HALF_TURN) / j.scale - raw);
    assert (q - j.offset) / j.sign == Free(q, j);
  }

  /** Rounding the offset to a whole tick moves the reported angle by at most half a tick
      exactly when the shifted free value does not cross the wrap, which half a tick of room
      on either side rules out. */
  lemma RoundingResidual(raw: real, q: real, j: Joint)
    requires Usual(j) && -HALF_TURN <= Free(q, j) < HALF_TURN
    ensures var rounded := RoundHalfEven(Solve(raw, q, j)) as real;
            var shifted := Free(q, j) + j.scale * (rounded - Solve(raw, q, j));
            var residual := Reported(raw, rounded, j) - q;
      && (AbsReal(residual) <= 0.5 <==> -HALF_TURN <= shifted < HALF_TURN)
      && (-HALF_TURN + 0.5 <= Free(q, j) < HALF_TURN - 0.5 ==> AbsReal(residual) <= 0.5)
  {
    var off := Solve(raw, q, j);
    var d := RoundHalfEven(off) as real - off;
    RoundHalfEvenWithinHalf(off);
    ReportedNearSolved(raw, q, j, d);
    var shifted := Free(q, j) + j.scale * d;
    assert AbsReal(j.scale * d) <= 0.5;
    ResidualOf(q, j, shifted);
    WrapFixed(shifted);
    if !(-HALF_TURN <= shifted < HALF_TURN) {
      WrapBounds(shifted);
      var k := WrapTurns(shifted);
      assert k != 0;
      FarAway(k);
    }
  }

  lemma ResidualOf(q: real, j: Joint, shifted: real)
    requires Usual(j)
    ensures AbsReal(j.sign * Wrap(shifted) + j.offset - q) == AbsReal(Wrap(shifted) - Free(q, j))
  {
  }

  lemma FarAway(k: int)
    requires k != 0
    ensures k as real * TURN >= TURN || k as real * TURN <= -TURN
  {
  }

  // ---- the whole arm ----------------------------------------------------------------

  function ReportedArm(raw: seq<real>, ticks: seq<real>, joints: seq<Joint>): seq<real>
    requires |raw| >= NUM_ARM_JOINTS && |ticks| == |joints| == NUM_ARM_JOINTS
  {
    seq(NUM_ARM_JOINTS, i requires 0 <= i < NUM_ARM_JOINTS => Reported(raw[i], ticks[i], joints[i]))
  }

  function SolveArm(raw: seq<real>, q: seq<real>, joints: seq<Joint>): seq<real>
    requires |raw| >= NUM_ARM_JOINTS && |q| == |joints| == NUM_ARM_JOINTS
    requires forall i :: 0 <= i < NUM_ARM_JOINTS ==> Invertible(joints[i])
  {
    seq(NUM_ARM_JOINTS, i requires 0 <= i < NUM_ARM_JOINTS => Solve(raw[i], q[i], joints[i]))
  }

  /** The calibrated arm reports the reference pose exactly when every joint's free value lies
      in range; readings past the arm joints play no part. */
  lemma CalibrationInverts(raw: seq<real>, q: seq<real>, joints: seq<Joint>)
    requires |raw| >= NUM_ARM_JOINTS && |q| == |joints| == NUM_ARM_JOINTS
    requires forall i :: 0 <= i < NUM_ARM_JOINTS ==> Invertible(joints[i]) && Usual(joints[i])
    ensures ReportedArm(raw, SolveArm(raw, q, joints), joints) == q
            <==> forall i :: 0 <= i < NUM_ARM_JOINTS ==> -HALF_TURN <= Free(q[i], joints[i]) < HALF_TURN
  {
    var r := ReportedArm(raw, SolveArm(raw, q, joints), joints);
    forall i | 0 <= i < NUM_ARM_JOINTS
      ensures r[i] == q[i] <==> -HALF_TURN <= Free(q[i], joints[i]) < HALF_TURN
    {
      SolveInverts(raw[i], q[i], joints[i]);
    }
    assert r == q <==> forall i :: 0 <= i < NUM_ARM_JOINTS ==> r[i] == q[i];
  }
}
