/** The two per-node sums of GSDR: the latent score (negative squared
    distance between the forced-latent vector and a latent node's prototype)
    and the dot product of the input with an SDR node's weights.  Both are
    defined as the running sums the source's loops accumulate, index 0 first. */
module Scoring {

  function Square(d: real): (s: real)
    ensures s >= 0.0
  {
    d * d
  }

  lemma SquarePositive(d: real)
    requires d != 0.0
    ensures Square(d) > 0.0
  {
    calc {
      Square(d);
    ==
      d * d;
    >
      0.0;
    }
  }

  /** -Σ_j (forced[j] - w[j])², the latent score of a node whose latent
      weights are `w`; never positive. */
  function LatentScore(forced: seq<real>, w: seq<real>): (score: real)
    requires |forced| == |w|
    ensures score <= 0.0
  {
    if |forced| == 0 then 0.0
    else
      var n := |forced| - 1;
      LatentScore(forced[..n], w[..n]) - Square(forced[n] - w[n])
  }

  /** The score reaches its maximum 0 exactly when the forced-latent vector
      is the node's latent prototype. */
  lemma LatentScoreZeroIff(forced: seq<real>, w: seq<real>)
    requires |forced| == |w|
    ensures LatentScore(forced, w) == 0.0 <==> forced == w
  {
    if forced == w {
      LatentScoreOfPrototype(w);
    } else {
      LatentScoreElsewhere(forced, w);
    }
  }

  lemma {:induction false} LatentScoreOfPrototype(w: seq<real>)
    ensures LatentScore(w, w) == 0.0
  {
    if |w| > 0 {
      LatentScoreOfPrototype(w[..|w| - 1]);
    }
  }

  lemma {:induction false} LatentScoreElsewhere(forced: seq<real>, w: seq<real>)
    requires |forced| == |w| && forced != w
    ensures LatentScore(forced, w) < 0.0
  {
    var n := |forced| - 1;
    assert forced == forced[..n] + [forced[n]];
    assert w == w[..n] + [w[n]];
    if forced[n] != w[n] {
      SquarePositive(forced[n] - w[n]);
    } else {
      LatentScoreElsewhere(forced[..n], w[..n]);
    }
  }

  /** Σ_j x[j] * w[j]. */
  function Dot(x: seq<real>, w: seq<real>): real
    requires |x| == |w|
  {
    if |x| == 0 then 0.0
    else
      var n := |x| - 1;
      Dot(x[..n], w[..n]) + x[n] * w[n]
  }
}
