# Trade_When operator, modelled in Dafny

`trade_when` builds an alpha series from three aligned series: a trade trigger
`x`, candidate alpha values `a` and an exit trigger `z`. It first checks that the
three have the same length and raises an error if they do not. It then walks the
indices in order, carrying one scalar `prev` that starts at `initial_alpha`
(default NaN). At each index:

- if the exit trigger is strictly positive, the output is NaN and `prev` becomes NaN;
- otherwise, if the trade trigger is strictly positive, the output is `a[i]` and `prev` becomes `a[i]`;
- otherwise the output is `prev`, carried forward.

The model lives in `trade_when.dfy`, module `TradeWhenOperator`:

- `Alpha = NaN | Val(r: real)` abstracts a float. NaN is the "flat" sentinel.
  Triggers have the same type (`Trigger`), because the Python `trade_when`
  (trade_when.py:16-18) converts them to float.
- `Fires(t)` is the `t > 0` comparison of trade_when.py:28 and 31. It is false on NaN.
- `Step` is the per-index three-way rule of trade_when.py:28-35: exit gives NaN,
  otherwise a trade gives the step's candidate alpha, otherwise the carried value is kept.
  `SpecAt`, `ExitWins`, `TradeTakesAlpha` and `HoldCarries` state what it does at each index.
- `DefaultInitialAlpha` is NaN, the default `initial_alpha` of trade_when.py:4.
  `TradeWhen` takes it as the default value of its `init` parameter.
- `TradeWhenSpec` is the output series, defined by recursion over prefixes.
- `TradeWhen` is the imperative operator. It checks the lengths, fills a
  preallocated array one index at a time and carries `prev`. Its loop invariants
  tie the filled part of the array and `prev` to `TradeWhenSpec`.
- `ByLastAction` is an independent reference definition with no carried state.
  The output at `i` is decided by the most recent step `j <= i` at which some
  trigger fired: NaN if the exit fired there, `a[j]` otherwise. If no trigger has
  fired yet, it is the initial alpha. `SpecIsByLastAction` proves that the two
  definitions agree.

## Model

| member | source | states |
|---|---|---|
| `TradeWhenOperator.TradeWhen` | trade_when.py:4-37 | Fails with `LengthMismatch` exactly when the three inputs differ in length, and then produces nothing. Otherwise it returns what the buffer-and-`prev` loop computes, which equals `TradeWhenSpec`. The loop invariant keeps `prev` equal to the last value written, or to the initial alpha before the first step. Leaving out `init` gives the NaN default. |
| `TradeWhenOperator.TradeWhenSpec` | trade_when.py:23-37 | On success the output has exactly `n` elements, where `n` is the common input length. |
| `TradeWhenOperator.SpecPrefix` | trade_when.py:27-35 | The pass is causal in strict order: the first `k` outputs are the output of the operator run on the first `k` inputs. |
| `TradeWhenOperator.SpecAt` | trade_when.py:25-35 | Output `i` is the three-way rule applied to step `i`'s inputs and the carried value. The carried value is output `i-1`, or the initial alpha at `i == 0`. This holds in all three branches because `prev == out[i]` after every step. |
| `TradeWhenOperator.ExitWins` | trade_when.py:28-30 | Exit has priority: whenever `z[i] > 0`, output `i` is NaN, whatever `x[i]` is. |
| `TradeWhenOperator.TradeTakesAlpha` | trade_when.py:31-33 | When `z[i]` does not fire and `x[i] > 0`, output `i` is `a[i]`. |
| `TradeWhenOperator.HoldCarries` | trade_when.py:25-35 | When neither trigger fires, output `i` equals output `i-1`. At `i == 0` it equals the initial alpha. |
| `TradeWhenOperator.LastAction` | trade_when.py:27-35 | Finds the most recent step at or before `i` where a trigger fired: that step acts and no later step up to `i` does. `None` means no step up to `i` acts. |
| `TradeWhenOperator.SpecIsByLastAction` | trade_when.py:25-35 | At every index, the carried-state output equals the stateless reference: NaN after an exit, the trade step's alpha after a trade, the initial alpha before any trigger. |
| `TradeWhenOperator.OutputOrigin` | trade_when.py:25-35 | Every output is NaN, the initial alpha, or a candidate alpha from the same or an earlier step. No value is invented and none comes from the future. |
| `TradeWhenOperator.AllQuiet` | trade_when.py:25-35 | If no trigger fires at any index, the output is `n` copies of the initial alpha. |
| `TradeWhenOperator.AllQuietDefault` | trade_when.py:4-35 | With the default initial alpha (NaN) and no trigger firing, every output is NaN. |
| `TradeWhenOperator.WorkedExample` | trade_when.py:43-58 | `x=[0,1,0,0,1,0]`, `a=[0.10,0.75,-0.20,0.30,0.40,0.90]`, `z=[0,0,0,1,0,0]` and initial alpha `0.0` give `[0.0, 0.75, 0.75, NaN, 0.40, 0.40]`. |

## Left out

- The `np.asarray(..., dtype=float)` coercion (trade_when.py:16-18): inputs are taken as sequences of abstract values already. A non-numeric input, which would make NumPy raise, is not modelled.
- IEEE-754 arithmetic: NaN is a separate constructor. "`NaN > 0` is false" is built into `Fires`. `real` has no infinities: a caller must encode +inf as a positive real and -inf as a non-positive one. Under that encoding `Fires` gives the same answer as `> 0`. An infinite alpha can only be stood in for by some finite value. Signed zeros are not distinguished.
- `initial_alpha` is assumed to be an `Alpha` already. The Python stores it in `prev` unconverted (trade_when.py:25) and converts it to float only when a hold step writes it into the buffer (trade_when.py:35). A non-numeric `initial_alpha` therefore raises there only on inputs where some step holds before any trigger fires. That late conversion and its data-dependent failure are not modelled.
- The result is returned as the contents of the filled buffer (a `seq`), not as a NumPy array object.
- The `__main__` demonstration block (trade_when.py:40-58) prints its result, which is I/O. Its data is kept as the lemma `WorkedExample`.
- Idempotence (re-running yields identical output) is not stated as a lemma. Every Dafny function is deterministic by construction, and a second call to the method returns the same value as the first because both equal `TradeWhenSpec` of the same inputs.
- The linear-decay operator in `time series operators.py` and its interactive prompt are not part of this model. That file is a separate operator with no data flow into `trade_when`.
