/** The GSDR object: two pools of H nodes that createRandom, learn and
    generate overwrite in place, and the public inhibition ratio.  Every method
    runs the loops of the source and is proved to leave the pools equal to the
    corresponding function of module Pools applied to the pools it found. */
module Gsdr {
  import opened Counting
  import opened Scoring
  import opened Inhibition
  import opened Pools

  class GSDR {
    /** The SDR nodes, one weight per input. */
    var sdrNodes: seq<Node>
    /** The forced-latent nodes, one weight per forced latent; node i biases
        SDR node i. */
    var forcedLatentNodes: seq<Node>
    /** Fraction of nodes allowed to fire; callers may change it. */
    var activeRatio: real
    /** The widths createRandom gave the two pools; the source keeps them only
        implicitly, in the weight vectors' sizes. */
    ghost var numInputs: nat
    ghost var numForcedLatents: nat

    /** The object invariant: both pools have the same number of nodes, and
        every node of a pool has that pool's width.  The pools are private in
        the source, so only createRandom, learn and generate change them. */
    ghost predicate Valid()
      reads this
    {
      Shaped(sdrNodes, forcedLatentNodes, numInputs, numForcedLatents)
    }

    constructor ()
      ensures Valid() && sdrNodes == [] && forcedLatentNodes == [] && activeRatio == 0.1
    {
      sdrNodes := [];
      forcedLatentNodes := [];
      activeRatio := 0.1;
      numInputs, numForcedLatents := 0, 0;
    }

    /** Resize both pools to numHidden nodes and give every node fresh weights
        from the generator: per node, numInputs weight draws, then
        numForcedLatents draws of [-1, 1] scaled by forceLatentInfluence.
        `draws` is the generator's output in the order it is consumed. */
    method CreateRandom(numInputs: nat, numHidden: nat, numForcedLatents: nat,
                        initMinWeight: real, initMaxWeight: real, forceLatentInfluence: real,
                        draws: seq<real>)
      requires Offset(numHidden, numInputs + numForcedLatents) <= |draws|
      modifies this`sdrNodes, this`forcedLatentNodes, this`numInputs, this`numForcedLatents
      ensures Valid() && this.numInputs == numInputs && this.numForcedLatents == numForcedLatents
      ensures sdrNodes == SeededSDR(Resized(old(sdrNodes), numHidden), draws, numInputs, numForcedLatents)
      ensures forcedLatentNodes
              == SeededLatent(Resized(old(forcedLatentNodes), numHidden), draws, numInputs, numForcedLatents, forceLatentInfluence)
      ensures Shaped(sdrNodes, forcedLatentNodes, numInputs, numForcedLatents) && |sdrNodes| == numHidden
      ensures DrawsInRange(draws, numHidden, numInputs, numInputs + numForcedLatents, initMinWeight, initMaxWeight) ==>
                (forall i, j :: 0 <= i < numHidden && 0 <= j < numInputs ==>
                   initMinWeight <= sdrNodes[i].weights[j] <= initMaxWeight) &&
                (forall i, j :: 0 <= i < numHidden && 0 <= j < numForcedLatents ==>
                   -Abs(forceLatentInfluence) <= forcedLatentNodes[i].weights[j] <= Abs(forceLatentInfluence))
    {
      sdrNodes := Resized(sdrNodes, numHidden);
      forcedLatentNodes := Resized(forcedLatentNodes, numHidden);
      ghost var sdr0, latent0 := sdrNodes, forcedLatentNodes;
      ghost var seededSdr := SeededSDR(sdr0, draws, numInputs, numForcedLatents);
      ghost var seededLatent := SeededLatent(latent0, draws, numInputs, numForcedLatents, forceLatentInfluence);
      ghost var stride := numInputs + numForcedLatents;
      var next := 0;  // position of the generator in `draws`
      var i := 0;
      while i < numHidden
        invariant i <= numHidden && next == Offset(i, stride)
        invariant |sdrNodes| == |forcedLatentNodes| == numHidden
        invariant forall k :: 0 <= k < numHidden ==> sdrNodes[k] == if k < i then seededSdr[k] else sdr0[k]
        invariant forall k :: 0 <= k < numHidden ==> forcedLatentNodes[k] == if k < i then seededLatent[k] else latent0[k]
      {
        OffsetInside(i, stride, numHidden, stride);
        var w;
        w, next := DrawWeights(sdrNodes[i].weights, numInputs, draws, next);
        sdrNodes := sdrNodes[i := sdrNodes[i].(weights := w)];
        var v;
        v, next := DrawLatentWeights(forcedLatentNodes[i].weights, numForcedLatents, forceLatentInfluence, draws, next);
        assert v == seededLatent[i].weights;
        forcedLatentNodes := forcedLatentNodes[i := forcedLatentNodes[i].(weights := v)];
        OffsetNext(i, stride);
        i := i + 1;
      }
      this.numInputs, this.numForcedLatents := numInputs, numForcedLatents;
      if DrawsInRange(draws, numHidden, numInputs, stride, initMinWeight, initMaxWeight) {
        CreatedInRange(old(sdrNodes), old(forcedLatentNodes), numHidden, numInputs, numForcedLatents,
                       initMinWeight, initMaxWeight, forceLatentInfluence, draws);
      }
    }

    /** Resize a node's weight vector to n and overwrite it with the next n
        draws of the weight distribution, starting at position `next`. */
    method DrawWeights(w0: seq<real>, n: nat, draws: seq<real>, next: nat) returns (w: seq<real>, after: nat)
      requires next + n <= |draws|
      ensures w == draws[next..next + n] && after == next + n
    {
      w := Fit(w0, n);
      after := next;
      var j := 0;
      while j < n
        invariant j <= n && |w| == n && after == next + j
        invariant forall m :: 0 <= m < j ==> w[m] == draws[next + m]
      {
        w := w[j := draws[after]];
        after := after + 1;
        j := j + 1;
      }
    }

    /** Resize a latent node's weight vector to n and overwrite it with the
        next n draws of [-1, 1], each times the latent influence. */
    method DrawLatentWeights(w0: seq<real>, n: nat, influence: real, draws: seq<real>, next: nat)
      returns (w: seq<real>, after: nat)
      requires next + n <= |draws|
      ensures |w| == n && after == next + n
      ensures forall m :: 0 <= m < n ==> w[m] == Scaled(draws[next + m], influence)
    {
      w := Fit(w0, n);
      after := next;
      var j := 0;
      while j < n
        invariant j <= n && |w| == n && after == next + j
        invariant forall m :: 0 <= m < j ==> w[m] == Scaled(draws[next + m], influence)
      {
        w := w[j := Scaled(draws[after], influence)];
        after := after + 1;
        j := j + 1;
      }
    }

    /** One learning step on an input vector and a forced-latent vector. */
    method Learn(inputs: seq<real>, forcedLatents: seq<real>, alpha: real, beta: real)
      requires Valid() && Shaped(sdrNodes, forcedLatentNodes, |inputs|, |forcedLatents|)
      modifies this`sdrNodes, this`forcedLatentNodes
      ensures Valid()
      ensures (sdrNodes, forcedLatentNodes)
              == Learned(old(sdrNodes), old(forcedLatentNodes), inputs, forcedLatents, activeRatio, alpha, beta)
    {
      FindLatentBiases(forcedLatents);
      ActivateWithInputs(inputs);
      Inhibit();
      var recon := Reconstruct(|inputs|);
      LearnReconstruction(inputs, recon, alpha, beta);
    }

    /** Generate an input-space vector from a forced-latent vector. */
    method Generate(forcedLatents: seq<real>) returns (generation: seq<real>)
      requires Valid() && |sdrNodes| >= 1 && Shaped(sdrNodes, forcedLatentNodes, |sdrNodes[0].weights|, |forcedLatents|)
      modifies this`sdrNodes, this`forcedLatentNodes
      ensures Valid()
      ensures (sdrNodes, forcedLatentNodes, generation)
              == Generated(old(sdrNodes), old(forcedLatentNodes), forcedLatents, activeRatio)
    {
      FindLatentBiases(forcedLatents);
      ActivateFromLatents();
      Inhibit();
      generation := Reconstruct(|sdrNodes[0].weights|);
      GenerateKeepsParameters(old(sdrNodes), old(forcedLatentNodes), forcedLatents, activeRatio);
    }

    /** Each latent node's activation becomes -Σ_j (forced_j - w_j)². */
    method FindLatentBiases(forcedLatents: seq<real>)
      requires WeightsOfLength(forcedLatentNodes, |forcedLatents|)
      modifies this`forcedLatentNodes
      ensures forcedLatentNodes == ScoreLatents(old(forcedLatentNodes), forcedLatents)
    {
      ghost var scored := ScoreLatents(forcedLatentNodes, forcedLatents);
      var i := 0;
      while i < |forcedLatentNodes|
        invariant i <= |forcedLatentNodes| == |old(forcedLatentNodes)|
        invariant forall k :: 0 <= k < |forcedLatentNodes| ==>
                    forcedLatentNodes[k] == if k < i then scored[k] else old(forcedLatentNodes)[k]
      {
        var w := forcedLatentNodes[i].weights;
        var sum := 0.0;
        var j := 0;
        while j < |forcedLatents|
          invariant j <= |forcedLatents| && sum == LatentScore(forcedLatents[..j], w[..j])
        {
          var delta := forcedLatents[j] - w[j];
          assert forcedLatents[..j + 1][..j] == forcedLatents[..j] && w[..j + 1][..j] == w[..j];
          sum := sum + -Square(delta);
          j := j + 1;
        }
        assert forcedLatents[..j] == forcedLatents && w[..j] == w;
        forcedLatentNodes := forcedLatentNodes[i := forcedLatentNodes[i].(activation := sum)];
        i := i + 1;
      }
    }

    /** Each SDR node's activation becomes bias + Σ_j inputs_j * w_j plus the
        score of its latent node. */
    method ActivateWithInputs(inputs: seq<real>)
      requires |sdrNodes| == |forcedLatentNodes| && WeightsOfLength(sdrNodes, |inputs|)
      modifies this`sdrNodes
      ensures sdrNodes == ActivatedByInput(old(sdrNodes), forcedLatentNodes, inputs)
    {
      ghost var activated := ActivatedByInput(sdrNodes, forcedLatentNodes, inputs);
      var i := 0;
      while i < |sdrNodes|
        invariant i <= |sdrNodes| == |old(sdrNodes)|
        invariant forall k :: 0 <= k < |sdrNodes| ==> sdrNodes[k] == if k < i then activated[k] else old(sdrNodes)[k]
      {
        var w := sdrNodes[i].weights;
        var sum := sdrNodes[i].bias;
        var j := 0;
        while j < |inputs|
          invariant j <= |inputs| && sum == sdrNodes[i].bias + Dot(inputs[..j], w[..j])
        {
          assert inputs[..j + 1][..j] == inputs[..j] && w[..j + 1][..j] == w[..j];
          sum := sum + inputs[j] * w[j];
          j := j + 1;
        }
        assert inputs[..j] == inputs && w[..j] == w;
        sdrNodes := sdrNodes[i := sdrNodes[i].(activation := sum + forcedLatentNodes[i].activation)];
        i := i + 1;
      }
    }

    /** Each SDR node's activation becomes its latent node's score plus its
        bias. */
    method ActivateFromLatents()
      requires |sdrNodes| == |forcedLatentNodes|
      modifies this`sdrNodes
      ensures sdrNodes == ActivatedByLatent(old(sdrNodes), forcedLatentNodes)
    {
      var i := 0;
      while i < |sdrNodes|
        invariant i <= |sdrNodes| == |old(sdrNodes)|
        invariant forall k :: 0 <= k < |sdrNodes| ==>
                    sdrNodes[k] == if k < i then ActivatedByLatent(old(sdrNodes), forcedLatentNodes)[k] else old(sdrNodes)[k]
      {
        sdrNodes := sdrNodes[i := sdrNodes[i].(activation := forcedLatentNodes[i].activation + sdrNodes[i].bias)];
        i := i + 1;
      }
    }

    /** Each SDR node counts the other nodes at least as active as itself and
        fires iff that count is below activeRatio * H. */
    method Inhibit()
      modifies this`sdrNodes
      ensures sdrNodes == Inhibited(old(sdrNodes), activeRatio)
    {
      ghost var acts := Activations(sdrNodes);
      ghost var inhibited := Inhibited(sdrNodes, activeRatio);
      var i := 0;
      while i < |sdrNodes|
        invariant i <= |sdrNodes| == |acts|
        invariant Activations(sdrNodes) == acts
        invariant forall k :: 0 <= k < |sdrNodes| ==> sdrNodes[k] == if k < i then inhibited[k] else old(sdrNodes)[k]
      {
        var inhibition := CountInhibition(i);
        var state := if Wins(inhibition, activeRatio, |sdrNodes|) then 1.0 else 0.0;
        sdrNodes := sdrNodes[i := sdrNodes[i].(state := state)];
        i := i + 1;
      }
    }

    /** The number of other SDR nodes whose activation is at least node i's. */
    method CountInhibition(i: nat) returns (inhibition: nat)
      requires i < |sdrNodes|
      ensures inhibition == Rank(Activations(sdrNodes), i) == |Above(Activations(sdrNodes), i)|
    {
      ghost var acts := Activations(sdrNodes);
      inhibition := 0;
      var j := 0;
      while j < |sdrNodes|
        invariant j <= |sdrNodes| && inhibition == CountAtLeast(acts, i, j)
      {
        if i != j {
          if sdrNodes[j].activation >= sdrNodes[i].activation {
            inhibition := inhibition + 1;
          }
        }
        j := j + 1;
      }
      RankIsSize(acts, i);
    }

    /** recon_d = Σ_k w_k[d] * state_k for d < n. */
    method Reconstruct(n: nat) returns (recon: seq<real>)
      requires WeightsOfLength(sdrNodes, n)
      ensures recon == ReconVec(sdrNodes, n)
    {
      recon := seq(n, _ => 0.0);
      var i := 0;
      while i < n
        invariant i <= n && |recon| == n
        invariant forall d :: 0 <= d < i ==> recon[d] == Recon(sdrNodes, d, |sdrNodes|)
      {
        var sum := 0.0;
        var j := 0;
        while j < |sdrNodes|
          invariant j <= |sdrNodes| && sum == Recon(sdrNodes, i, j)
        {
          sum := sum + sdrNodes[j].weights[i] * sdrNodes[j].state;
          j := j + 1;
        }
        recon := recon[i := sum];
        i := i + 1;
      }
    }

    /** Move each node's weights by alpha * state * (input - recon) and its
        bias by beta * -activation. */
    method LearnReconstruction(inputs: seq<real>, recon: seq<real>, alpha: real, beta: real)
      requires WeightsOfLength(sdrNodes, |inputs|) && |recon| == |inputs|
      modifies this`sdrNodes
      ensures sdrNodes == Updated(old(sdrNodes), inputs, recon, alpha, beta)
    {
      ghost var updated := Updated(sdrNodes, inputs, recon, alpha, beta);
      var i := 0;
      while i < |sdrNodes|
        invariant i <= |sdrNodes| == |old(sdrNodes)|
        invariant forall k :: 0 <= k < |sdrNodes| ==> sdrNodes[k] == if k < i then updated[k] else old(sdrNodes)[k]
      {
        var node := sdrNodes[i];
        ghost var moved := Moved(node.weights, node.state, inputs, recon, alpha);
        assert moved == updated[i].weights;
        var j := 0;
        while j < |inputs|
          invariant j <= |inputs| && |node.weights| == |inputs|
          invariant node == sdrNodes[i].(weights := node.weights)
          invariant forall m :: 0 <= m < |inputs| ==>
                      node.weights[m] == if m < j then moved[m] else sdrNodes[i].weights[m]
        {
          var w := node.weights[j] + alpha * node.state * (inputs[j] - recon[j]);
          assert w == moved[j];
          node := node.(weights := node.weights[j := w]);
          j := j + 1;
        }
        node := node.(bias := node.bias + beta * -node.activation);
        sdrNodes := sdrNodes[i := node];
        i := i + 1;
      }
    }
  }
}
