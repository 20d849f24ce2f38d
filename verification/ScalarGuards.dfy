/** Scalar thresholds with Schmitt-trigger hysteresis, and what hysteresis buys over a run. */
module ScalarGuards {
  import opened Arithmetic

  datatype Operator = Ge | Gt | Le | Lt

  datatype ScalarGuard = ScalarGuard(signal: string, operator: Operator, threshold: real, hysteresis: real)
  {
    predicate Valid() {
      hysteresis >= 0.0
    }

    predicate Evaluate(value: real, active: bool) {
      var bar :=
        if !active then threshold
        else if operator.Ge? || operator.Gt? then threshold - hysteresis
        else threshold + hysteresis;
      match operator
      case Ge => value >= bar
      case Gt => value > bar
      case Le => value <= bar
      case Lt => value < bar
    }
  }

  /** The guard's result after feeding it a signal, each result becoming the next `active`. */
  ghost predicate Settled(g: ScalarGuard, initial: bool, signal: seq<real>) {
    if signal == [] then initial
    else g.Evaluate(signal[|signal| - 1], Settled(g, initial, signal[..|signal| - 1]))
  }

  /** How many samples changed the result. */
  ghost function Flips(g: ScalarGuard, initial: bool, signal: seq<real>): nat {
    if signal == [] then 0
    else
      var front := signal[..|signal| - 1];
      Flips(g, initial, front) + if Settled(g, initial, signal) != Settled(g, initial, front) then 1 else 0
  }

  ghost function TotalVariation(signal: seq<real>): real {
    if |signal| < 2 then 0.0
    else TotalVariation(signal[..|signal| - 1]) + Abs(signal[|signal| - 1] - signal[|signal| - 2])
  }

  /** What each operator asks of the value: a guard that is on keeps on up to one hysteresis width
   *  on the other side of its threshold, and only ge and le hold at the very end of it. */
  lemma OperatorsRead(g: ScalarGuard, value: real, active: bool)
    requires g.Valid()
    ensures g.operator == Ge ==>
      (g.Evaluate(value, active) <==> g.threshold <= value || (active && g.threshold - value <= g.hysteresis))
    ensures g.operator == Gt ==>
      (g.Evaluate(value, active) <==> g.threshold < value || (active && g.threshold - value < g.hysteresis))
    ensures g.operator == Le ==>
      (g.Evaluate(value, active) <==> value <= g.threshold || (active && value - g.threshold <= g.hysteresis))
    ensures g.operator == Lt ==>
      (g.Evaluate(value, active) <==> value < g.threshold || (active && value - g.threshold < g.hysteresis))
  {
  }

  ghost predicate StaysOn(g: ScalarGuard, signal: seq<real>, from: nat) {
    forall j :: from <= j < |signal| ==> g.Evaluate(signal[j], true)
  }

  /** Over a run the guard is on exactly if some sample switched it on, or it was on at the start,
   *  and no later sample switched it off. */
  lemma {:induction false} SettledIff(g: ScalarGuard, initial: bool, signal: seq<real>)
    requires g.Valid()
    ensures Settled(g, initial, signal) <==>
      || (initial && StaysOn(g, signal, 0))
      || exists k :: 0 <= k < |signal| && g.Evaluate(signal[k], false) && StaysOn(g, signal, k)
  {
    if signal != [] {
      var front, last := signal[..|signal| - 1], |signal| - 1;
      SettledIff(g, initial, front);
      assert forall k :: 0 <= k < |front| ==> signal[k] == front[k];
      assert forall from: nat :: from <= last ==>
        (StaysOn(g, signal, from) <==> StaysOn(g, front, from) && g.Evaluate(signal[last], true));
      if Settled(g, initial, signal) {
        if g.Evaluate(signal[last], false) {
          assert StaysOn(g, signal, last);
        } else if !(initial && StaysOn(g, front, 0)) {
          var k :| 0 <= k < |front| && g.Evaluate(front[k], false) && StaysOn(g, front, k);
          assert StaysOn(g, signal, k);
        }
      }
    }
  }

  /** A value that switches an inactive guard on also keeps an active one on. */
  lemma ActivationPersists(g: ScalarGuard, value: real)
    requires g.Valid() && g.Evaluate(value, false)
    ensures g.Evaluate(value, true)
  {
  }

  /** Two values that switch the guard in opposite directions are at least the hysteresis apart. */
  lemma OppositeFlipsAreApart(g: ScalarGuard, on: real, off: real)
    requires g.Evaluate(on, false) && !g.Evaluate(off, true)
    ensures Abs(on - off) >= g.hysteresis
  {
  }

  /** One hysteresis width for every flip after the first. */
  ghost function FlipCost(flips: nat, hysteresis: real): real {
    if flips <= 1 then 0.0 else FlipCost(flips - 1, hysteresis) + hysteresis
  }

  /** n + 1 flips cost n hysteresis widths. */
  lemma {:induction false} FlipCostIsProduct(n: nat, hysteresis: real)
    ensures FlipCost(n + 1, hysteresis) == n as real * hysteresis
  {
    if n > 0 {
      FlipCostIsProduct(n - 1, hysteresis);
      assert n as real * hysteresis == (n - 1) as real * hysteresis + hysteresis;
    }
  }

  /** `flip` is the sample of the last flip; the way back from it is not yet paid for. */
  lemma {:induction false} FlipInvariant(g: ScalarGuard, initial: bool, signal: seq<real>) returns (flip: real)
    requires g.Valid() && Flips(g, initial, signal) > 0
    ensures g.Evaluate(flip, !Settled(g, initial, signal)) == Settled(g, initial, signal)
    ensures FlipCost(Flips(g, initial, signal), g.hysteresis) + Abs(signal[|signal| - 1] - flip)
         <= TotalVariation(signal)
  {
    var last, front := signal[|signal| - 1], signal[..|signal| - 1];
    if Flips(g, initial, front) == 0 {
      flip := last;
      VariationNonNegative(signal);
    } else {
      var previous := FlipInvariant(g, initial, front);
      if Settled(g, initial, signal) == Settled(g, initial, front) {
        flip := previous;
      } else {
        flip := last;
        assert Abs(last - previous) >= g.hysteresis by {
          if Settled(g, initial, signal) {
            OppositeFlipsAreApart(g, last, previous);
          } else {
            OppositeFlipsAreApart(g, previous, last);
          }
        }
      }
    }
  }

  lemma {:induction false} VariationNonNegative(signal: seq<real>)
    ensures TotalVariation(signal) >= 0.0
  {
    if |signal| >= 2 {
      VariationNonNegative(signal[..|signal| - 1]);
    }
  }

  lemma {:induction false} FlipCostIsPaid(g: ScalarGuard, initial: bool, signal: seq<real>)
    requires g.Valid()
    ensures FlipCost(Flips(g, initial, signal), g.hysteresis) <= TotalVariation(signal)
  {
    if Flips(g, initial, signal) == 0 {
      VariationNonNegative(signal);
    } else {
      var flip := FlipInvariant(g, initial, signal);
    }
  }

  /** The product, with no signal in sight. */
  lemma ProductIsPaid(n: nat, hysteresis: real, variation: real)
    requires FlipCost(n + 1, hysteresis) <= variation
    ensures n as real * hysteresis <= variation
  {
    FlipCostIsProduct(n, hysteresis);
  }

  /** A signal that makes n + 1 flips has a total variation of at least n times the hysteresis;
   *  `variation` is that variation or any bound of it. */
  lemma {:induction false} FlipsCostVariation(g: ScalarGuard, initial: bool, signal: seq<real>, n: nat, variation: real)
    requires g.Valid() && Flips(g, initial, signal) == n + 1 && TotalVariation(signal) <= variation
    ensures n as real * g.hysteresis <= variation
  {
    FlipCostIsPaid(g, initial, signal);
    ProductIsPaid(n, g.hysteresis, variation);
  }
}
