/** The two node pools of GSDR as values, and the effect of each step of
    createRandom, learn and generate on them, stated as functions of the pools
    before the step.  The class in module Gsdr performs these steps in place;
    the lemmas here say what the steps promise. */
module Pools {
  import opened Counting
  import opened Scoring
  import opened Inhibition

  /** One node: its weight vector and the scalars activation, state and bias.
      Both pools hold nodes of this one type. */
  datatype Node = Node(weights: seq<real>, activation: real, state: real, bias: real)

  /** The node that a resize appends: value-initialised, every field zero. */
  const Blank: Node := Node([], 0.0, 0.0, 0.0)

  predicate WeightsOfLength(pool: seq<Node>, n: nat)
  {
    forall i :: 0 <= i < |pool| ==> |pool[i].weights| == n
  }

  /** H SDR nodes with nIn weights each and H latent nodes with nLat weights
      each: the shape createRandom leaves behind. */
  predicate Shaped(sdr: seq<Node>, latent: seq<Node>, nIn: nat, nLat: nat)
  {
    |sdr| == |latent| && WeightsOfLength(sdr, nIn) && WeightsOfLength(latent, nLat)
  }

  function Activations(pool: seq<Node>): (acts: seq<real>)
    ensures |acts| == |pool|
    ensures forall i :: 0 <= i < |pool| ==> acts[i] == pool[i].activation
  {
    seq(|pool|, i requires 0 <= i < |pool| => pool[i].activation)
  }

  /** The nodes whose state is 1. */
  ghost function Firing(pool: seq<Node>): set<int>
  {
    set i | 0 <= i < |pool| && pool[i].state == 1.0
  }

  // ---------------------------------------------------------------------
  // createRandom

  /** std::vector<float>::resize: keep a prefix, or pad with zeros. */
  function Fit(w: seq<real>, n: nat): (r: seq<real>)
    ensures |r| == n
    ensures forall j :: 0 <= j < n ==> r[j] == if j < |w| then w[j] else 0.0
  {
    if n <= |w| then w[..n] else w + seq(n - |w|, _ => 0.0)
  }

  /** std::vector<Node>::resize: keep a prefix, or pad with blank nodes. */
  function Resized(pool: seq<Node>, n: nat): (r: seq<Node>)
    ensures |r| == n
    ensures forall i :: 0 <= i < n ==> r[i] == if i < |pool| then pool[i] else Blank
  {
    if n <= |pool| then pool[..n] else pool + seq(n - |pool|, _ => Blank)
  }

  /** Node i takes the nIn draws starting at Offset(i, nIn + nLat) as its
      weights. */
  function SeededSDR(pool: seq<Node>, draws: seq<real>, nIn: nat, nLat: nat): (r: seq<Node>)
    requires Offset(|pool|, nIn + nLat) <= |draws|
    ensures |r| == |pool| && WeightsOfLength(r, nIn)
    ensures forall i :: 0 <= i < |r| ==> r[i] == pool[i].(weights := r[i].weights)
  {
    OffsetsInside(|pool|, nIn + nLat);
    seq(|pool|, i requires 0 <= i < |pool| =>
      pool[i].(weights := draws[Offset(i, nIn + nLat)..Offset(i, nIn + nLat) + nIn]))
  }

  /** A draw of the [-1, 1] distribution times the latent influence. */
  function Scaled(d: real, influence: real): real
  {
    d * influence
  }

  /** Node i takes the nLat draws that follow its nIn SDR draws, each scaled
      by the latent influence, as its weights. */
  function SeededLatent(pool: seq<Node>, draws: seq<real>, nIn: nat, nLat: nat, influence: real): (r: seq<Node>)
    requires Offset(|pool|, nIn + nLat) <= |draws|
    ensures |r| == |pool| && WeightsOfLength(r, nLat)
    ensures forall i :: 0 <= i < |r| ==> r[i] == pool[i].(weights := r[i].weights)
  {
    OffsetsInside(|pool|, nIn + nLat);
    seq(|pool|, i requires 0 <= i < |pool| =>
      pool[i].(weights := seq(nLat, j requires 0 <= j < nLat => Scaled(draws[Offset(i, nIn + nLat) + nIn + j], influence))))
  }

  /** The generator's draws for H nodes: per node, nIn draws of the weight
      distribution in [lo, hi], then nLat draws of the [-1, 1] distribution. */
  ghost predicate DrawsInRange(draws: seq<real>, h: nat, nIn: nat, stride: nat, lo: real, hi: real)
  {
    forall i :: 0 <= i < h && Offset(i, stride) + stride <= |draws| ==>
      BlockInRange(draws[Offset(i, stride)..Offset(i, stride) + stride], nIn, lo, hi)
  }

  /** One node's block of draws: nIn in [lo, hi], then the rest in [-1, 1]. */
  ghost predicate BlockInRange(block: seq<real>, nIn: nat, lo: real, hi: real)
  {
    forall j :: 0 <= j < |block| ==> if j < nIn then lo <= block[j] <= hi else -1.0 <= block[j] <= 1.0
  }

  function Abs(x: real): (r: real)
    ensures r >= 0.0 && (r == x || r == -x)
  {
    if x < 0.0 then -x else x
  }

  /** A draw of [-1, 1] scaled by c lies within |c| of zero. */
  lemma ScaledDraw(d: real, c: real)
    requires -1.0 <= d <= 1.0
    ensures -Abs(c) <= Scaled(d, c) <= Abs(c)
  {
  }

  /** An SDR weight createRandom draws lies in [initMinWeight, initMaxWeight]. */
  lemma SeededSDRInRange(pool: seq<Node>, draws: seq<real>, nIn: nat, nLat: nat, lo: real, hi: real, i: nat)
    requires Offset(|pool|, nIn + nLat) <= |draws| && DrawsInRange(draws, |pool|, nIn, nIn + nLat, lo, hi)
    requires i < |pool|
    ensures forall j :: 0 <= j < nIn ==> lo <= SeededSDR(pool, draws, nIn, nLat)[i].weights[j] <= hi
  {
    OffsetInside(i, nIn + nLat, |pool|, nIn + nLat);
    var o := Offset(i, nIn + nLat);
    var block := draws[o..o + nIn + nLat];
    assert BlockInRange(block, nIn, lo, hi);
    forall j | 0 <= j < nIn
      ensures SeededSDR(pool, draws, nIn, nLat)[i].weights[j] == block[j]
    {
    }
  }

  /** A latent weight createRandom draws lies within the latent influence of 0. */
  lemma SeededLatentInRange(pool: seq<Node>, draws: seq<real>, nIn: nat, nLat: nat, lo: real, hi: real,
                            influence: real, i: nat)
    requires Offset(|pool|, nIn + nLat) <= |draws| && DrawsInRange(draws, |pool|, nIn, nIn + nLat, lo, hi)
    requires i < |pool|
    ensures forall j :: 0 <= j < nLat ==>
              -Abs(influence) <= SeededLatent(pool, draws, nIn, nLat, influence)[i].weights[j] <= Abs(influence)
  {
    OffsetInside(i, nIn + nLat, |pool|, nIn + nLat);
    var o := Offset(i, nIn + nLat);
    var block := draws[o..o + nIn + nLat];
    assert BlockInRange(block, nIn, lo, hi);
    forall j | 0 <= j < nLat
      ensures -Abs(influence) <= SeededLatent(pool, draws, nIn, nLat, influence)[i].weights[j] <= Abs(influence)
    {
      var d := block[nIn + j];
      assert SeededLatent(pool, draws, nIn, nLat, influence)[i].weights[j] == Scaled(d, influence);
      ScaledDraw(d, influence);
    }
  }

  /** After createRandom both pools hold H nodes, SDR weights lie in
      [initMinWeight, initMaxWeight] and latent weights within the latent
      influence of zero. */
  lemma CreatedInRange(sdr: seq<Node>, latent: seq<Node>, h: nat, nIn: nat, nLat: nat,
                       lo: real, hi: real, influence: real, draws: seq<real>)
    requires Offset(h, nIn + nLat) <= |draws| && DrawsInRange(draws, h, nIn, nIn + nLat, lo, hi)
    ensures var s := SeededSDR(Resized(sdr, h), draws, nIn, nLat);
            var l := SeededLatent(Resized(latent, h), draws, nIn, nLat, influence);
            Shaped(s, l, nIn, nLat) && |s| == h &&
            (forall i, j :: 0 <= i < h && 0 <= j < nIn ==> lo <= s[i].weights[j] <= hi) &&
            (forall i, j :: 0 <= i < h && 0 <= j < nLat ==> -Abs(influence) <= l[i].weights[j] <= Abs(influence))
  {
    var s := SeededSDR(Resized(sdr, h), draws, nIn, nLat);
    var l := SeededLatent(Resized(latent, h), draws, nIn, nLat, influence);
    forall i | 0 <= i < h
      ensures forall j :: 0 <= j < nIn ==> lo <= s[i].weights[j] <= hi
    {
      SeededSDRInRange(Resized(sdr, h), draws, nIn, nLat, lo, hi, i);
    }
    forall i | 0 <= i < h
      ensures forall j :: 0 <= j < nLat ==> -Abs(influence) <= l[i].weights[j] <= Abs(influence)
    {
      SeededLatentInRange(Resized(latent, h), draws, nIn, nLat, lo, hi, influence, i);
    }
  }

  /** createRandom draws new weights only: nodes that survive the resize keep
      bias, activation and state, and nodes it adds start with all of them 0. */
  lemma CreatedKeepsScalars(sdr: seq<Node>, latent: seq<Node>, h: nat, draws: seq<real>, nIn: nat, nLat: nat,
                             influence: real, i: nat)
    requires Offset(h, nIn + nLat) <= |draws| && i < h
    ensures var s := SeededSDR(Resized(sdr, h), draws, nIn, nLat);
            var before := if i < |sdr| then sdr[i] else Blank;
            s[i].bias == before.bias && s[i].activation == before.activation && s[i].state == before.state
    ensures var l := SeededLatent(Resized(latent, h), draws, nIn, nLat, influence);
            var before := if i < |latent| then latent[i] else Blank;
            l[i].bias == before.bias && l[i].activation == before.activation && l[i].state == before.state
  {
  }

  // ---------------------------------------------------------------------
  // The steps shared by learn and generate

  /** Every latent node's activation becomes its latent score against the
      forced-latent vector; nothing else changes. */
  function ScoreLatents(latent: seq<Node>, forced: seq<real>): (r: seq<Node>)
    requires WeightsOfLength(latent, |forced|)
    ensures |r| == |latent| && WeightsOfLength(r, |forced|)
    ensures forall i :: 0 <= i < |r| ==> r[i] == latent[i].(activation := r[i].activation) && r[i].activation <= 0.0
  {
    seq(|latent|, i requires 0 <= i < |latent| => latent[i].(activation := LatentScore(forced, latent[i].weights)))
  }

  /** A latent node scores 0, its highest possible score, exactly when the
      forced-latent vector equals its weights. */
  lemma ScoredLatentZeroIff(latent: seq<Node>, forced: seq<real>, i: nat)
    requires WeightsOfLength(latent, |forced|) && i < |latent|
    ensures ScoreLatents(latent, forced)[i].activation == 0.0 <==> forced == latent[i].weights
  {
    LatentScoreZeroIff(forced, latent[i].weights);
  }

  /** learn's activation: bias plus the input dot product plus the latent
      node's score; nothing else changes. */
  function ActivatedByInput(sdr: seq<Node>, latent: seq<Node>, inputs: seq<real>): (r: seq<Node>)
    requires |sdr| == |latent| && WeightsOfLength(sdr, |inputs|)
    ensures |r| == |sdr| && WeightsOfLength(r, |inputs|)
    ensures forall i :: 0 <= i < |r| ==> r[i] == sdr[i].(activation := r[i].activation)
  {
    seq(|sdr|, i requires 0 <= i < |sdr| =>
      sdr[i].(activation := sdr[i].bias + Dot(inputs, sdr[i].weights) + latent[i].activation))
  }

  /** generate's activation: the latent node's score plus the bias, without
      any input term; nothing else changes. */
  function ActivatedByLatent(sdr: seq<Node>, latent: seq<Node>): (r: seq<Node>)
    requires |sdr| == |latent|
    ensures |r| == |sdr|
    ensures forall i :: 0 <= i < |r| ==> r[i] == sdr[i].(activation := r[i].activation)
  {
    seq(|sdr|, i requires 0 <= i < |sdr| => sdr[i].(activation := latent[i].activation + sdr[i].bias))
  }

  /** Every node's state becomes the inhibition verdict on its activation
      among all activations; nothing else changes. */
  function Inhibited(sdr: seq<Node>, ratio: real): (r: seq<Node>)
    ensures |r| == |sdr|
    ensures forall i :: 0 <= i < |r| ==> r[i] == sdr[i].(state := r[i].state) && (r[i].state == 0.0 || r[i].state == 1.0)
  {
    seq(|sdr|, i requires 0 <= i < |sdr| => sdr[i].(state := State(Activations(sdr), ratio, i)))
  }

  /** The nodes that fire after inhibition are the Winners of the activations. */
  lemma InhibitedFiring(sdr: seq<Node>, ratio: real)
    ensures Firing(Inhibited(sdr, ratio)) == Winners(Activations(sdr), ratio)
    ensures Activations(Inhibited(sdr, ratio)) == Activations(sdr)
  {
  }

  /** Σ_{k<n} weights_k[d] * state_k, the source's reconstruction sum. */
  function Recon(pool: seq<Node>, d: nat, n: nat): real
    requires n <= |pool| && forall k :: 0 <= k < |pool| ==> d < |pool[k].weights|
  {
    if n == 0 then 0.0 else Recon(pool, d, n - 1) + pool[n - 1].weights[d] * pool[n - 1].state
  }

  /** The reconstruction of entries 0 .. len-1. */
  function ReconVec(pool: seq<Node>, len: nat): (r: seq<real>)
    requires WeightsOfLength(pool, len)
    ensures |r| == len
  {
    seq(len, d requires 0 <= d < len => Recon(pool, d, |pool|))
  }

  /** Σ of weights_k[d] over the nodes k < n that belong to `winners`. */
  function WinnerSum(pool: seq<Node>, winners: set<int>, d: nat, n: nat): real
    requires n <= |pool| && forall k :: 0 <= k < |pool| ==> d < |pool[k].weights|
  {
    if n == 0 then 0.0
    else WinnerSum(pool, winners, d, n - 1) + (if n - 1 in winners then pool[n - 1].weights[d] else 0.0)
  }

  /** After inhibition the reconstruction is the sum of the winners' weight
      vectors, the weights being those the pool had before inhibition. */
  lemma {:induction false} ReconIsWinnerSum(pool: seq<Node>, ratio: real, d: nat, n: nat)
    requires n <= |pool| && forall k :: 0 <= k < |pool| ==> d < |pool[k].weights|
    ensures Recon(Inhibited(pool, ratio), d, n) == WinnerSum(pool, Winners(Activations(pool), ratio), d, n)
  {
    if n > 0 {
      ReconIsWinnerSum(pool, ratio, d, n - 1);
      var r := Inhibited(pool, ratio);
      var w := pool[n - 1].weights[d];
      assert r[n - 1].weights[d] == w;
      if r[n - 1].state == 1.0 {
        assert n - 1 in Winners(Activations(pool), ratio);
        assert w * r[n - 1].state == w;
      } else {
        assert n - 1 !in Winners(Activations(pool), ratio);
        assert w * r[n - 1].state == 0.0;
      }
    }
  }

  /** The delta-rule step alpha * (x - r) of a firing node. */
  function Delta(alpha: real, x: real, r: real): real
  {
    alpha * (x - r)
  }

  /** Entry by entry, w + alpha * state * (inputs - recon). */
  function Moved(w: seq<real>, state: real, inputs: seq<real>, recon: seq<real>, alpha: real): (r: seq<real>)
    requires |w| == |inputs| == |recon|
    ensures |r| == |w|
    ensures state == 0.0 || alpha == 0.0 ==> r == w
  {
    var r := seq(|w|, j requires 0 <= j < |w| => w[j] + alpha * state * (inputs[j] - recon[j]));
    assert state == 0.0 || alpha == 0.0 ==> forall j :: 0 <= j < |w| ==> r[j] == w[j];
    r
  }

  /** learn's update of every SDR node: weights by the delta rule, bias by
      beta * -activation; activation and state stay. */
  function Updated(sdr: seq<Node>, inputs: seq<real>, recon: seq<real>, alpha: real, beta: real): (r: seq<Node>)
    requires WeightsOfLength(sdr, |inputs|) && |recon| == |inputs|
    ensures |r| == |sdr| && WeightsOfLength(r, |inputs|)
    ensures forall i :: 0 <= i < |r| ==> r[i].activation == sdr[i].activation && r[i].state == sdr[i].state
  {
    seq(|sdr|, i requires 0 <= i < |sdr| =>
      sdr[i].(weights := Moved(sdr[i].weights, sdr[i].state, inputs, recon, alpha),
              bias := sdr[i].bias + beta * -sdr[i].activation))
  }

  // ---------------------------------------------------------------------
  // learn and generate as a whole

  /** learn: score latents, activate from the inputs, inhibit, reconstruct,
      update.  Result: the new SDR pool and the new latent pool. */
  function Learned(sdr: seq<Node>, latent: seq<Node>, inputs: seq<real>, forced: seq<real>,
                   ratio: real, alpha: real, beta: real): (r: (seq<Node>, seq<Node>))
    requires Shaped(sdr, latent, |inputs|, |forced|)
    ensures Shaped(r.0, r.1, |inputs|, |forced|) && |r.0| == |sdr|
  {
    var latent1 := ScoreLatents(latent, forced);
    var sdr1 := Inhibited(ActivatedByInput(sdr, latent1, inputs), ratio);
    (Updated(sdr1, inputs, ReconVec(sdr1, |inputs|), alpha, beta), latent1)
  }

  /** The activation learn gives SDR node i. */
  function LearnActivation(sdr: seq<Node>, latent: seq<Node>, inputs: seq<real>, forced: seq<real>, i: nat): real
    requires Shaped(sdr, latent, |inputs|, |forced|) && i < |sdr|
  {
    sdr[i].bias + Dot(inputs, sdr[i].weights) + LatentScore(forced, latent[i].weights)
  }

  /** All activations learn computes. */
  function LearnActivations(sdr: seq<Node>, latent: seq<Node>, inputs: seq<real>, forced: seq<real>): (acts: seq<real>)
    requires Shaped(sdr, latent, |inputs|, |forced|)
    ensures |acts| == |sdr|
  {
    seq(|sdr|, i requires 0 <= i < |sdr| => LearnActivation(sdr, latent, inputs, forced, i))
  }

  lemma LearnActivationsAre(sdr: seq<Node>, latent: seq<Node>, inputs: seq<real>, forced: seq<real>)
    requires Shaped(sdr, latent, |inputs|, |forced|)
    ensures Activations(ActivatedByInput(sdr, ScoreLatents(latent, forced), inputs)) == LearnActivations(sdr, latent, inputs, forced)
  {
  }

  /** After learn each SDR node's activation is bias + input·weights + latent
      score, computed before the update, and its state is the inhibition
      verdict on those activations: so the states are 0 or 1, winners are
      closed upward, and their number is bounded as module Inhibition shows. */
  lemma LearnStates(sdr: seq<Node>, latent: seq<Node>, inputs: seq<real>, forced: seq<real>, ratio: real, alpha: real, beta: real)
    requires Shaped(sdr, latent, |inputs|, |forced|)
    ensures var r := Learned(sdr, latent, inputs, forced, ratio, alpha, beta).0;
            Activations(r) == LearnActivations(sdr, latent, inputs, forced) &&
            Firing(r) == Winners(LearnActivations(sdr, latent, inputs, forced), ratio) &&
            forall i :: 0 <= i < |r| ==> r[i].state == State(Activations(r), ratio, i)
  {
    var latent1 := ScoreLatents(latent, forced);
    var sdr0 := ActivatedByInput(sdr, latent1, inputs);
    var sdr1 := Inhibited(sdr0, ratio);
    var r := Learned(sdr, latent, inputs, forced, ratio, alpha, beta).0;
    LearnActivationsAre(sdr, latent, inputs, forced);
    InhibitedFiring(sdr0, ratio);
    assert Activations(r) == Activations(sdr1);
    assert Firing(r) == Firing(sdr1);
  }

  /** learn never fires more nodes than #{r in [0, H) : r < activeRatio * H}. */
  lemma LearnWinnerBound(sdr: seq<Node>, latent: seq<Node>, inputs: seq<real>, forced: seq<real>, ratio: real, alpha: real, beta: real)
    requires Shaped(sdr, latent, |inputs|, |forced|)
    ensures |Firing(Learned(sdr, latent, inputs, forced, ratio, alpha, beta).0)| <= Quota(ratio, |sdr|)
  {
    LearnStates(sdr, latent, inputs, forced, ratio, alpha, beta);
    WinnerCountBound(LearnActivations(sdr, latent, inputs, forced), ratio);
  }

  /** One weight of the update: a firing node's weight moves by
      alpha * (input - recon), a silent node's does not move. */
  lemma UpdatedWeight(pool: seq<Node>, inputs: seq<real>, recon: seq<real>, alpha: real, beta: real, i: nat, j: nat)
    requires WeightsOfLength(pool, |inputs|) && |recon| == |inputs| && i < |pool| && j < |inputs|
    requires pool[i].state == 0.0 || pool[i].state == 1.0
    ensures Updated(pool, inputs, recon, alpha, beta)[i].weights[j]
            == if pool[i].state == 1.0 then pool[i].weights[j] + Delta(alpha, inputs[j], recon[j]) else pool[i].weights[j]
  {
    var s := pool[i].state;
    assert Updated(pool, inputs, recon, alpha, beta)[i].weights[j] == pool[i].weights[j] + alpha * s * (inputs[j] - recon[j]);
    if s == 1.0 {
      assert alpha * s == alpha;
      assert alpha * s * (inputs[j] - recon[j]) == Delta(alpha, inputs[j], recon[j]);
    } else {
      assert alpha * s == 0.0;
    }
  }

  /** Inhibit, reconstruct and update, seen from the activated pool: a winner's
      weight j moves by alpha * (input_j - Σ_winners weight j), a loser's stays. */
  lemma InhibitAndUpdateWeight(pool: seq<Node>, inputs: seq<real>, ratio: real, alpha: real, beta: real, i: nat, j: nat)
    requires WeightsOfLength(pool, |inputs|) && i < |pool| && j < |inputs|
    ensures var win := Winners(Activations(pool), ratio);
            var p1 := Inhibited(pool, ratio);
            var w := Updated(p1, inputs, ReconVec(p1, |inputs|), alpha, beta)[i].weights[j];
            if i in win then w == pool[i].weights[j] + Delta(alpha, inputs[j], WinnerSum(pool, win, j, |pool|))
            else w == pool[i].weights[j]
  {
    var p1 := Inhibited(pool, ratio);
    var recon := ReconVec(p1, |inputs|);
    InhibitedFiring(pool, ratio);
    assert p1[i].state == 1.0 <==> i in Firing(p1);
    UpdatedWeight(p1, inputs, recon, alpha, beta, i, j);
    ReconIsWinnerSum(pool, ratio, j, |pool|);
  }

  /** The delta rule: each winner's weight j moves by alpha * (input_j - recon_j),
      where recon_j sums weight j over all winners before the update; losers'
      weights do not move. */
  lemma LearnWeightRule(sdr: seq<Node>, latent: seq<Node>, inputs: seq<real>, forced: seq<real>,
                        ratio: real, alpha: real, beta: real, i: nat, j: nat)
    requires Shaped(sdr, latent, |inputs|, |forced|) && i < |sdr| && j < |inputs|
    ensures var win := Winners(LearnActivations(sdr, latent, inputs, forced), ratio);
            var w := Learned(sdr, latent, inputs, forced, ratio, alpha, beta).0[i].weights[j];
            if i in win then w == sdr[i].weights[j] + Delta(alpha, inputs[j], WinnerSum(sdr, win, j, |sdr|))
            else w == sdr[i].weights[j]
  {
    var sdr0 := ActivatedByInput(sdr, ScoreLatents(latent, forced), inputs);
    LearnActivationsAre(sdr, latent, inputs, forced);
    InhibitAndUpdateWeight(sdr0, inputs, ratio, alpha, beta, i, j);
    WinnerSumSameWeights(sdr0, sdr, Winners(Activations(sdr0), ratio), j, |sdr|);
  }

  lemma {:induction false} WinnerSumSameWeights(a: seq<Node>, b: seq<Node>, win: set<int>, d: nat, n: nat)
    requires n <= |a| == |b|
    requires forall k :: 0 <= k < |a| ==> d < |a[k].weights| && a[k].weights == b[k].weights
    ensures WinnerSum(a, win, d, n) == WinnerSum(b, win, d, n)
  {
    if n > 0 {
      WinnerSumSameWeights(a, b, win, d, n - 1);
    }
  }

  /** Every SDR node, winner or loser, has its bias lowered by beta times the
      activation learn computed for it. */
  lemma LearnBiasRule(sdr: seq<Node>, latent: seq<Node>, inputs: seq<real>, forced: seq<real>,
                      ratio: real, alpha: real, beta: real, i: nat)
    requires Shaped(sdr, latent, |inputs|, |forced|) && i < |sdr|
    ensures Learned(sdr, latent, inputs, forced, ratio, alpha, beta).0[i].bias
            == sdr[i].bias - beta * LearnActivation(sdr, latent, inputs, forced, i)
  {
    var act := LearnActivation(sdr, latent, inputs, forced, i);
    LearnActivationsAre(sdr, latent, inputs, forced);
    assert beta * -act == -(beta * act);
  }

  /** learn never changes a latent node's weights or bias, nor the sizes of
      the pools or of any weight vector. */
  lemma LearnKeepsLatents(sdr: seq<Node>, latent: seq<Node>, inputs: seq<real>, forced: seq<real>,
                          ratio: real, alpha: real, beta: real)
    requires Shaped(sdr, latent, |inputs|, |forced|)
    ensures var r := Learned(sdr, latent, inputs, forced, ratio, alpha, beta);
            |r.1| == |latent| &&
            forall i :: 0 <= i < |latent| ==> r.1[i].weights == latent[i].weights && r.1[i].bias == latent[i].bias
  {
  }

  /** With both learning rates 0, learn changes no weight and no bias. */
  lemma LearnZeroRates(sdr: seq<Node>, latent: seq<Node>, inputs: seq<real>, forced: seq<real>, ratio: real)
    requires Shaped(sdr, latent, |inputs|, |forced|)
    ensures var r := Learned(sdr, latent, inputs, forced, ratio, 0.0, 0.0).0;
            forall i :: 0 <= i < |sdr| ==> r[i].weights == sdr[i].weights && r[i].bias == sdr[i].bias
  {
  }

  /** generate: score latents, activate from latents and biases, inhibit,
      and reconstruct as many entries as the first SDR node has weights.
      Result: new SDR pool, new latent pool, generation. */
  function Generated(sdr: seq<Node>, latent: seq<Node>, forced: seq<real>, ratio: real): (r: (seq<Node>, seq<Node>, seq<real>))
    requires |sdr| >= 1 && Shaped(sdr, latent, |sdr[0].weights|, |forced|)
    ensures |r.2| == |sdr[0].weights| && |r.0| == |sdr| && |r.1| == |latent|
  {
    var latent1 := ScoreLatents(latent, forced);
    var sdr1 := Inhibited(ActivatedByLatent(sdr, latent1), ratio);
    (sdr1, latent1, ReconVec(sdr1, |sdr[0].weights|))
  }

  /** generate leaves every weight and bias of both pools as it was. */
  lemma GenerateKeepsParameters(sdr: seq<Node>, latent: seq<Node>, forced: seq<real>, ratio: real)
    requires |sdr| >= 1 && Shaped(sdr, latent, |sdr[0].weights|, |forced|)
    ensures var r := Generated(sdr, latent, forced, ratio);
            (forall i :: 0 <= i < |sdr| ==> r.0[i].weights == sdr[i].weights && r.0[i].bias == sdr[i].bias) &&
            (forall i :: 0 <= i < |latent| ==> r.1[i].weights == latent[i].weights && r.1[i].bias == latent[i].bias)
  {
  }

  /** In generate a node's activation is its latent score plus its bias; no
      input term enters. */
  lemma GenerateActivations(sdr: seq<Node>, latent: seq<Node>, forced: seq<real>, ratio: real, i: nat)
    requires |sdr| >= 1 && Shaped(sdr, latent, |sdr[0].weights|, |forced|) && i < |sdr|
    ensures Generated(sdr, latent, forced, ratio).0[i].activation == LatentScore(forced, latent[i].weights) + sdr[i].bias
  {
    var latent1 := ScoreLatents(latent, forced);
    var sdr0 := ActivatedByLatent(sdr, latent1);
    assert Generated(sdr, latent, forced, ratio).0[i].activation == sdr0[i].activation;
  }

  /** In generate a node's state is the inhibition verdict on the activations
      generate computed. */
  lemma GenerateStates(sdr: seq<Node>, latent: seq<Node>, forced: seq<real>, ratio: real, i: nat)
    requires |sdr| >= 1 && Shaped(sdr, latent, |sdr[0].weights|, |forced|) && i < |sdr|
    ensures var r := Generated(sdr, latent, forced, ratio).0;
            r[i].state == State(Activations(r), ratio, i)
  {
    var sdr0 := ActivatedByLatent(sdr, ScoreLatents(latent, forced));
    InhibitedFiring(sdr0, ratio);
  }

  /** Entry d of the generation is the sum of weight d over the winning nodes. */
  lemma GenerationIsWinnerSum(sdr: seq<Node>, latent: seq<Node>, forced: seq<real>, ratio: real, d: nat)
    requires |sdr| >= 1 && Shaped(sdr, latent, |sdr[0].weights|, |forced|) && d < |sdr[0].weights|
    ensures var r := Generated(sdr, latent, forced, ratio);
            r.2[d] == WinnerSum(sdr, Winners(Activations(r.0), ratio), d, |sdr|)
  {
    var latent1 := ScoreLatents(latent, forced);
    var sdr0 := ActivatedByLatent(sdr, latent1);
    InhibitedFiring(sdr0, ratio);
    ReconIsWinnerSum(sdr0, ratio, d, |sdr|);
    WinnerSumSameWeights(sdr0, sdr, Winners(Activations(sdr0), ratio), d, |sdr|);
  }
}
