/**
  The Trade_When operator: one sequential pass over three aligned series (a
  trade trigger, candidate alpha values and an exit trigger) that builds an
  alpha series, carrying the previous alpha forward between steps.

  Floating point is abstracted: the only float behaviours the operator relies
  on are NaN as the "flat / no position" sentinel and the strict comparison
  `> 0`, which is false on NaN.
 */
module TradeWhenOperator {

  /** An alpha value: NaN means "no position"; otherwise a real signal strength. */
  datatype Alpha = NaN | Val(r: real)

  /** A trigger is a float series entry too: the Python `trade_when` (trade_when.py) converts it to float. */
  type Trigger = Alpha

  /** The only failure mode of the operator. */
  datatype Error = LengthMismatch

  datatype Result<T> = Ok(value: T) | Err(error: Error)

  /** The initial alpha the operator uses when the caller gives none. */
  const DefaultInitialAlpha: Alpha := NaN

  /** `t > 0` on a float: a NaN trigger never fires. */
  predicate Fires(t: Trigger)
  {
    t.Val? && t.r > 0.0
  }

  /** Some action (exit or trade) happens at this step. */
  predicate Acts(xi: Trigger, zi: Trigger)
  {
    Fires(xi) || Fires(zi)
  }

  predicate SameLength(x: seq<Trigger>, a: seq<Alpha>, z: seq<Trigger>)
  {
    |x| == |a| == |z|
  }

  /** One step of the state machine: exit first, then trade, else hold. */
  function Step(xi: Trigger, ai: Alpha, zi: Trigger, prev: Alpha): Alpha
  {
    if Fires(zi) then NaN
    else if Fires(xi) then ai
    else prev
  }

  /** The carried value before the next step: the last output, or the initial alpha. */
  function Last(out: seq<Alpha>, init: Alpha): Alpha
  {
    if out == [] then init else out[|out| - 1]
  }

  /**
    The output series of a successful call, defined over prefixes: the
    output for n + 1 steps is the output for n steps followed by one more step
    taken from the carried value.
   */
  function TradeWhenSpec(x: seq<Trigger>, a: seq<Alpha>, z: seq<Trigger>, init: Alpha): (r: seq<Alpha>)
    requires SameLength(x, a, z)
    ensures |r| == |x|
    decreases |x|
  {
    if |x| == 0 then []
    else
      var n := |x| - 1;
      var p := TradeWhenSpec(x[..n], a[..n], z[..n], init);
      p + [Step(x[n], a[n], z[n], Last(p, init))]
  }

  /**
    The operator itself: fails on a length mismatch before producing anything;
    otherwise fills a preallocated buffer one index at a time, carrying `prev`.
   */
  method TradeWhen(x: seq<Trigger>, a: seq<Alpha>, z: seq<Trigger>, init: Alpha := DefaultInitialAlpha)
    returns (res: Result<seq<Alpha>>)
    ensures res.Err? <==> !SameLength(x, a, z)
    // Records the error's name only: `Error` has this one constructor.
    ensures res.Err? ==> res.error == LengthMismatch
    ensures res.Ok? ==> SameLength(x, a, z) && res.value == TradeWhenSpec(x, a, z, init)
  {
    if !(|x| == |a| == |z|) {
      return Err(LengthMismatch);
    }
    var n := |x|;
    var out := new Alpha[n];
    var prev := init;
    for i := 0 to n
      invariant out[..i] == TradeWhenSpec(x[..i], a[..i], z[..i], init)
      invariant prev == Last(out[..i], init)
    {
      assert x[..i + 1][..i] == x[..i] && a[..i + 1][..i] == a[..i] && z[..i + 1][..i] == z[..i];
      if Fires(z[i]) {
        out[i] := NaN;
        prev := out[i];
      } else if Fires(x[i]) {
        out[i] := a[i];
        prev := out[i];
      } else {
        out[i] := prev;
      }
      assert out[..i + 1] == out[..i] + [out[i]];
    }
    assert x[..n] == x && a[..n] == a && z[..n] == z;
    res := Ok(out[..]);
  }

  /** Causality: the first k outputs depend only on the first k inputs. */
  lemma {:induction false} SpecPrefix(x: seq<Trigger>, a: seq<Alpha>, z: seq<Trigger>, init: Alpha, k: nat)
    requires SameLength(x, a, z) && k <= |x|
    ensures TradeWhenSpec(x[..k], a[..k], z[..k], init) == TradeWhenSpec(x, a, z, init)[..k]
    decreases |x|
  {
    if k < |x| {
      var n := |x| - 1;
      assert x[..n][..k] == x[..k] && a[..n][..k] == a[..k] && z[..n][..k] == z[..k];
      SpecPrefix(x[..n], a[..n], z[..n], init, k);
    } else {
      assert x[..k] == x && a[..k] == a && z[..k] == z;
    }
  }

  /** Output at index i is one step from the output at i - 1 (or from the initial alpha). */
  lemma {:induction false} SpecAt(x: seq<Trigger>, a: seq<Alpha>, z: seq<Trigger>, init: Alpha, i: nat)
    requires SameLength(x, a, z) && i < |x|
    ensures TradeWhenSpec(x, a, z, init)[i]
         == Step(x[i], a[i], z[i], if i == 0 then init else TradeWhenSpec(x, a, z, init)[i - 1])
  {
    SpecPrefix(x, a, z, init, i + 1);
    SpecPrefix(x, a, z, init, i);
    var xs, as_, zs := x[..i + 1], a[..i + 1], z[..i + 1];
    assert xs[..i] == x[..i] && as_[..i] == a[..i] && zs[..i] == z[..i];
  }

  /** Exit has priority: an exit trigger forces NaN whatever the trade trigger says. */
  lemma {:induction false} ExitWins(x: seq<Trigger>, a: seq<Alpha>, z: seq<Trigger>, init: Alpha, i: nat)
    requires SameLength(x, a, z) && i < |x| && Fires(z[i])
    ensures TradeWhenSpec(x, a, z, init)[i] == NaN
  {
    SpecAt(x, a, z, init, i);
  }

  /** Without an exit, a trade trigger takes the candidate alpha of that step. */
  lemma {:induction false} TradeTakesAlpha(x: seq<Trigger>, a: seq<Alpha>, z: seq<Trigger>, init: Alpha, i: nat)
    requires SameLength(x, a, z) && i < |x| && !Fires(z[i]) && Fires(x[i])
    ensures TradeWhenSpec(x, a, z, init)[i] == a[i]
  {
    SpecAt(x, a, z, init, i);
  }

  /** With neither trigger, the previous output (or the initial alpha) is carried forward. */
  lemma {:induction false} HoldCarries(x: seq<Trigger>, a: seq<Alpha>, z: seq<Trigger>, init: Alpha, i: nat)
    requires SameLength(x, a, z) && i < |x| && !Fires(z[i]) && !Fires(x[i])
    ensures i == 0 ==> TradeWhenSpec(x, a, z, init)[i] == init
    ensures i > 0 ==> TradeWhenSpec(x, a, z, init)[i] == TradeWhenSpec(x, a, z, init)[i - 1]
  {
    SpecAt(x, a, z, init, i);
  }

  /** A step index, or none. */
  datatype Option = None | Some(index: nat)

  /** The last index j <= i at which some trigger fires, if any. */
  function LastAction(x: seq<Trigger>, z: seq<Trigger>, i: nat): (r: Option)
    requires |x| == |z| && i < |x|
    ensures r.Some? ==> r.index <= i && Acts(x[r.index], z[r.index])
                        && forall k :: r.index < k <= i ==> !Acts(x[k], z[k])
    ensures r.None? ==> forall k :: 0 <= k <= i ==> !Acts(x[k], z[k])
  {
    if Acts(x[i], z[i]) then Some(i)
    else if i == 0 then None
    else LastAction(x, z, i - 1)
  }

  /**
    A reference definition without any carried state: the output at i is
    decided by the most recent step at which a trigger fired — NaN if it was
    an exit, that step's candidate alpha if it was a trade — or is the
    initial alpha when no trigger has fired yet.
   */
  function ByLastAction(x: seq<Trigger>, a: seq<Alpha>, z: seq<Trigger>, init: Alpha, i: nat): Alpha
    requires SameLength(x, a, z) && i < |x|
  {
    match LastAction(x, z, i)
    case None => init
    case Some(j) => if Fires(z[j]) then NaN else a[j]
  }

  /** The carried-state definition agrees with the reference definition at every index. */
  lemma {:induction false} SpecIsByLastAction(x: seq<Trigger>, a: seq<Alpha>, z: seq<Trigger>, init: Alpha, i: nat)
    requires SameLength(x, a, z) && i < |x|
    ensures TradeWhenSpec(x, a, z, init)[i] == ByLastAction(x, a, z, init, i)
  {
    SpecAt(x, a, z, init, i);
    if !Acts(x[i], z[i]) && i > 0 {
      SpecIsByLastAction(x, a, z, init, i - 1);
    }
  }

  /** Every output is NaN, the initial alpha, or a candidate alpha from a step at or before it. */
  lemma OutputOrigin(x: seq<Trigger>, a: seq<Alpha>, z: seq<Trigger>, init: Alpha, i: nat)
    requires SameLength(x, a, z) && i < |x|
    ensures var v := TradeWhenSpec(x, a, z, init)[i];
            v == NaN || v == init || exists j :: 0 <= j <= i && v == a[j]
  {
    SpecIsByLastAction(x, a, z, init, i);
  }

  /** If no trigger ever fires, every output is the initial alpha. */
  lemma {:induction false} AllQuiet(x: seq<Trigger>, a: seq<Alpha>, z: seq<Trigger>, init: Alpha)
    requires SameLength(x, a, z)
    requires forall k :: 0 <= k < |x| ==> !Acts(x[k], z[k])
    ensures TradeWhenSpec(x, a, z, init) == seq(|x|, _ => init)
  {
    var r := TradeWhenSpec(x, a, z, init);
    forall i | 0 <= i < |x|
      ensures r[i] == init
    {
      SpecIsByLastAction(x, a, z, init, i);
    }
  }

  /** With the default initial alpha and no trigger, the series is flat (all NaN). */
  lemma {:induction false} AllQuietDefault(x: seq<Trigger>, a: seq<Alpha>, z: seq<Trigger>)
    requires SameLength(x, a, z)
    requires forall k :: 0 <= k < |x| ==> !Acts(x[k], z[k])
    ensures forall k :: 0 <= k < |x| ==> TradeWhenSpec(x, a, z, DefaultInitialAlpha)[k] == NaN
  {
    AllQuiet(x, a, z, DefaultInitialAlpha);
  }

  /** The worked example of the `__main__` block of trade_when.py. */
  lemma WorkedExample()
    ensures TradeWhenSpec(
              [Val(0.0), Val(1.0), Val(0.0), Val(0.0), Val(1.0), Val(0.0)],
              [Val(0.10), Val(0.75), Val(-0.20), Val(0.30), Val(0.40), Val(0.90)],
              [Val(0.0), Val(0.0), Val(0.0), Val(1.0), Val(0.0), Val(0.0)],
              Val(0.0))
         == [Val(0.0), Val(0.75), Val(0.75), NaN, Val(0.40), Val(0.40)]
  {
    var x := [Val(0.0), Val(1.0), Val(0.0), Val(0.0), Val(1.0), Val(0.0)];
    var a := [Val(0.10), Val(0.75), Val(-0.20), Val(0.30), Val(0.40), Val(0.90)];
    var z := [Val(0.0), Val(0.0), Val(0.0), Val(1.0), Val(0.0), Val(0.0)];
    var init := Val(0.0);
    SpecAt(x, a, z, init, 0);
    SpecAt(x, a, z, init, 1);
    SpecAt(x, a, z, init, 2);
    SpecAt(x, a, z, init, 3);
    SpecAt(x, a, z, init, 4);
    SpecAt(x, a, z, init, 5);
  }
}
