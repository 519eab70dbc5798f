/** The slow learner over a settled fast loop, for any plant whose settled
    temperature follows the ramp start without overtaking it.  Every statement
    is about all runs, of any length. */
module Convergence {
  import opened Rounding
  import opened Learn

  /** One class's closed loop: where the plant settles for a ramp start, and the
      fan demand recorded there. */
  datatype Loop = Loop(settled: int -> real, demand: int -> int, target: int, minRamp: int, maxRamp: int, minFan: int) {

    /** Raising the ramp start raises the settled temperature, by no more than
        the ramp start rose. */
    ghost predicate Responsive() {
      && minRamp <= maxRamp
      && forall c1, c2 :: minRamp <= c1 <= c2 <= maxRamp ==> 0.0 <= settled(c2) - settled(c1) <= (c2 - c1) as real
    }

    predicate Inside(c: int) { minRamp <= c <= maxRamp }

    /** The decision of a tick whose window has spread `sd`. */
    function Decide(c: int, sd: real): Decision {
      TargetSeek(settled(c), sd, demand(c) as real, c, target, DefaultParams(minRamp, maxRamp, minFan as real))
    }

    /** No reason left to move: in the tolerance band, or off target with
        nothing further the ramp start could do. */
    predicate AtRest(c: int) {
      var err := settled(c) - target as real;
      || -1.0 < err <= 2.0
      || (err > 2.0 && (demand(c) >= 99 || c == minRamp))
      || (err <= -1.0 && (demand(c) <= minFan || c == maxRamp))
    }
  }

  predicate IsSettled(sd: real) { sd <= 1.5 }

  /** The loop visits ramp starts `cs`; tick `i` sees a window of spread `sds[i]`
      at `cs[i]` and its decision gives `cs[i + 1]`. */
  ghost predicate Run(l: Loop, cs: seq<int>, sds: seq<real>) {
    && |cs| == |sds| + 1
    && (forall i :: 0 <= i < |cs| ==> l.Inside(cs[i]))
    && (forall i :: 0 <= i < |sds| ==> cs[i + 1] == l.Decide(cs[i], sds[i]).newRampStart)
  }

  // ------------------------------------------------------------ single ticks

  /** From every start inside the clamp there is a run over any spreads. */
  lemma {:induction false} RunsExist(l: Loop, c: int, sds: seq<real>) returns (cs: seq<int>)
    requires l.Responsive() && l.Inside(c)
    ensures Run(l, cs, sds) && cs[0] == c
    decreases |sds|
  {
    if |sds| == 0 {
      cs := [c];
    } else {
      var rest := RunsExist(l, l.Decide(c, sds[0]).newRampStart, sds[1..]);
      cs := [c] + rest;
    }
  }

  /** No tick crosses the band: after a "too hot" step the plant settles still
      warmer than target + 1, after a "too cool" step at most at target, and a
      hold changes nothing. */
  lemma NoOvershoot(l: Loop, c: int, sd: real)
    requires l.Responsive() && l.Inside(c)
    ensures var d := l.Decide(c, sd);
      && l.Inside(d.newRampStart)
      && (d.reason == TooHot ==> d.newRampStart == c - 1
                                 && l.target as real + 1.0 < l.settled(c - 1) <= l.settled(c))
      && (d.reason == TooCool ==> d.newRampStart == c + 1
                                  && l.settled(c) <= l.settled(c + 1) <= l.target as real)
      && (!d.acted ==> d.newRampStart == c)
      && (d.acted <==> d.reason == TooHot || d.reason == TooCool)
  {
    var d := l.Decide(c, sd);
    if d.acted {
      var lower, upper := Min(c, d.newRampStart), Max(c, d.newRampStart);
      assert l.settled(upper) - l.settled(lower) <= 1.0;
    }
  }

  /** A settled tick holds exactly when the loop is at rest. */
  lemma HoldsIffAtRest(l: Loop, c: int, sd: real)
    requires l.Responsive() && l.Inside(c) && IsSettled(sd)
    ensures !l.Decide(c, sd).acted <==> l.AtRest(c)
  {
  }

  // --------------------------------------------------------------- whole runs

  lemma {:induction false} StaysWarm(l: Loop, cs: seq<int>, sds: seq<real>, i: nat, j: nat)
    requires l.Responsive() && Run(l, cs, sds) && i < j < |sds|
    requires l.Decide(cs[i], sds[i]).reason == TooHot
    ensures l.settled(cs[j]) > l.target as real + 1.0
  {
    hide Loop.Decide, Loop.Responsive;
    if i + 1 < j {
      StaysWarm(l, cs, sds, i, j - 1);
    }
    NoOvershoot(l, cs[j - 1], sds[j - 1]);
  }

  lemma {:induction false} StaysCool(l: Loop, cs: seq<int>, sds: seq<real>, i: nat, j: nat)
    requires l.Responsive() && Run(l, cs, sds) && i < j < |sds|
    requires l.Decide(cs[i], sds[i]).reason == TooCool
    ensures l.settled(cs[j]) <= l.target as real
  {
    hide Loop.Decide, Loop.Responsive;
    if i + 1 < j {
      StaysCool(l, cs, sds, i, j - 1);
    }
    NoOvershoot(l, cs[j - 1], sds[j - 1]);
  }

  /** No tick of the run moves that way. */
  ghost predicate Never(l: Loop, cs: seq<int>, sds: seq<real>, r: Reason)
    requires |sds| < |cs|
  {
    forall i :: 0 <= i < |sds| ==> l.Decide(cs[i], sds[i]).reason != r
  }

  lemma OneDirection(l: Loop, cs: seq<int>, sds: seq<real>, i: nat, j: nat)
    requires l.Responsive() && Run(l, cs, sds) && i < |sds| && j < |sds|
    ensures !(l.Decide(cs[i], sds[i]).reason == TooHot && l.Decide(cs[j], sds[j]).reason == TooCool)
  {
    hide Loop.Responsive;
    if l.Decide(cs[i], sds[i]).reason == TooHot && i < j {
      StaysWarm(l, cs, sds, i, j);
    }
    if l.Decide(cs[j], sds[j]).reason == TooCool && j < i {
      StaysCool(l, cs, sds, j, i);
    }
  }

  /** The loop never hunts: a run moves in one direction only. */
  lemma NeverReverses(l: Loop, cs: seq<int>, sds: seq<real>)
    requires l.Responsive() && Run(l, cs, sds)
    ensures Never(l, cs, sds, TooCool) || Never(l, cs, sds, TooHot)
  {
    hide Loop.Decide, Loop.Responsive;
    forall i, j | 0 <= i < |sds| && 0 <= j < |sds|
      ensures !(l.Decide(cs[i], sds[i]).reason == TooHot && l.Decide(cs[j], sds[j]).reason == TooCool)
    {
      OneDirection(l, cs, sds, i, j);
    }
  }

  /** How many of the first `n` ticks moved the ramp start. */
  ghost function Moves(l: Loop, cs: seq<int>, sds: seq<real>, n: nat): nat
    requires n <= |sds| < |cs|
  {
    if n == 0 then 0
    else Moves(l, cs, sds, n - 1) + if l.Decide(cs[n - 1], sds[n - 1]).acted then 1 else 0
  }

  /** How many of the first `n` windows had settled. */
  function SettledTicks(sds: seq<real>, n: nat): nat
    requires n <= |sds|
  {
    if n == 0 then 0
    else SettledTicks(sds, n - 1) + if IsSettled(sds[n - 1]) then 1 else 0
  }

  /** No move is ever undone: the moves made equal the distance travelled, so
      there are at most `maxRamp - minRamp` of them in a run of any length. */
  lemma MovesAreDistance(l: Loop, cs: seq<int>, sds: seq<real>, n: nat)
    requires l.Responsive() && Run(l, cs, sds) && n <= |sds|
    ensures Moves(l, cs, sds, n) == Abs(cs[n] - cs[0]) <= l.maxRamp - l.minRamp
  {
    NeverReverses(l, cs, sds);
    if Never(l, cs, sds, TooCool) {
      MovesDown(l, cs, sds, n);
    } else {
      MovesUp(l, cs, sds, n);
    }
  }

  lemma {:induction false} MovesDown(l: Loop, cs: seq<int>, sds: seq<real>, n: nat)
    requires l.Responsive() && Run(l, cs, sds) && n <= |sds| && Never(l, cs, sds, TooCool)
    ensures Moves(l, cs, sds, n) == cs[0] - cs[n]
  {
    hide Loop.Decide, Loop.Responsive;
    if n > 0 {
      MovesDown(l, cs, sds, n - 1);
      NoOvershoot(l, cs[n - 1], sds[n - 1]);
    }
  }

  lemma {:induction false} MovesUp(l: Loop, cs: seq<int>, sds: seq<real>, n: nat)
    requires l.Responsive() && Run(l, cs, sds) && n <= |sds| && Never(l, cs, sds, TooHot)
    ensures Moves(l, cs, sds, n) == cs[n] - cs[0]
  {
    hide Loop.Decide, Loop.Responsive;
    if n > 0 {
      MovesUp(l, cs, sds, n - 1);
      NoOvershoot(l, cs[n - 1], sds[n - 1]);
    }
  }

  /** Rest is permanent: once a settled tick holds, no later tick, settled or
      not, moves the ramp start. */
  lemma {:induction false} RestIsPermanent(l: Loop, cs: seq<int>, sds: seq<real>, i: nat, j: nat)
    requires Run(l, cs, sds) && i <= j < |sds|
    requires IsSettled(sds[i]) && !l.Decide(cs[i], sds[i]).acted
    ensures cs[j] == cs[i] && cs[j + 1] == cs[i]
    ensures !l.Decide(cs[j], sds[j]).acted
  {
    if i < j {
      RestIsPermanent(l, cs, sds, i, j - 1);
    }
  }

  /** Before the first settled hold every settled tick is a move. */
  lemma {:induction false} SettledTicksMove(l: Loop, cs: seq<int>, sds: seq<real>, n: nat)
    requires Run(l, cs, sds) && n <= |sds|
    requires forall i :: 0 <= i < n && IsSettled(sds[i]) ==> l.Decide(cs[i], sds[i]).acted
    ensures Moves(l, cs, sds, n) == SettledTicks(sds, n)
  {
    if n > 0 {
      SettledTicksMove(l, cs, sds, n - 1);
    }
  }

  /** Convergence: after at most `maxRamp - minRamp` settled ticks the loop is
      at rest and stays there, however the rest of the run looks. */
  lemma TwoTimescaleConvergence(l: Loop, cs: seq<int>, sds: seq<real>, n: nat, j: nat)
    requires l.Responsive() && Run(l, cs, sds) && n <= j < |sds|
    requires SettledTicks(sds, n) >= l.maxRamp - l.minRamp
    ensures !l.Decide(cs[j], sds[j]).acted && cs[j + 1] == cs[n]
    ensures IsSettled(sds[j]) ==> l.AtRest(cs[j])
  {
    hide Loop.Decide;
    if exists i :: 0 <= i < n && IsSettled(sds[i]) && !l.Decide(cs[i], sds[i]).acted {
      var i :| 0 <= i < n && IsSettled(sds[i]) && !l.Decide(cs[i], sds[i]).acted;
      RestIsPermanent(l, cs, sds, i, n);
      RestIsPermanent(l, cs, sds, i, j);
    } else {
      SettledTicksMove(l, cs, sds, n);
      NoMoreMoves(l, cs, sds, n, j);
    }
    if IsSettled(sds[j]) {
      HoldsIffAtRest(l, cs[j], sds[j]);
    }
  }

  lemma {:induction false} MovesGrow(l: Loop, cs: seq<int>, sds: seq<real>, n: nat, j: nat)
    requires n <= j <= |sds| < |cs|
    ensures Moves(l, cs, sds, n) <= Moves(l, cs, sds, j)
    decreases j
  {
    if n < j {
      MovesGrow(l, cs, sds, n, j - 1);
    }
  }

  lemma {:induction false} NoMoreMoves(l: Loop, cs: seq<int>, sds: seq<real>, n: nat, j: nat)
    requires l.Responsive() && Run(l, cs, sds) && n <= j < |sds|
    requires Moves(l, cs, sds, n) >= l.maxRamp - l.minRamp
    ensures !l.Decide(cs[j], sds[j]).acted && cs[j + 1] == cs[n]
    decreases j
  {
    MovesGrow(l, cs, sds, n, j);
    MovesAreDistance(l, cs, sds, j + 1);
    ActsIffMoves(l.settled(cs[j]), sds[j], l.demand(cs[j]) as real, cs[j], l.target,
                 DefaultParams(l.minRamp, l.maxRamp, l.minFan as real));
    if n < j {
      NoMoreMoves(l, cs, sds, n, j - 1);
    }
  }
}
