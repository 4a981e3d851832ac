/**
 * The random source. Every `Rnd.Range(0, n)` of the generator reads the next
 * value of an explicit stream of draws; a draw is only valid when it lies in
 * [0, n), which is what the real random source guarantees. A stream that runs
 * out or holds an out-of-range value makes the specification functions return
 * None, and the methods require streams for which they do not.
 */
module Oracle {
  import opened Opt

  /** `Rnd.Range(0, n)`: the next draw and the rest of the stream. */
  function Range(draws: seq<nat>, n: nat): (r: Option<(nat, seq<nat>)>)
    ensures r.Some? <==> |draws| > 0 && draws[0] < n
    ensures r.Some? ==> r.value.0 < n && [r.value.0] + r.value.1 == draws
  {
    if |draws| > 0 && draws[0] < n then Some((draws[0], draws[1..])) else None
  }
}
