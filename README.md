# GSDR in Dafny

This project models GSDR, a single-layer sparse-coding network. The network keeps two
pools of H nodes:

- SDR nodes, each with one weight per input;
- forced-latent nodes, each with one weight per forced latent. Latent node i biases SDR
  node i.

Every node (`Pools.Node`) has a weight vector and three scalars: activation, state and
bias. A node that a resize adds is value-initialised, every field zero (`Pools.Blank`).
The public `activeRatio` (0.1 by default) sets the fraction of SDR nodes that may fire.

The model covers the object's three operations.

- **createRandom** resizes both pools to `numHidden` nodes. It then fills the weights from a
  random generator: per node, `numInputs` draws of the weight distribution, then
  `numForcedLatents` draws of [-1, 1], each times the latent influence.
- **learn** runs four steps:
  - it scores every latent node by the negative squared distance between the forced-latent
    vector and the node's weights;
  - it sets every SDR node's activation to bias + input · weights + that score;
  - it runs rank-based inhibition: a node fires iff fewer than `activeRatio * H` other nodes
    have an activation at least as high;
  - it reconstructs the input as Σ weights * state, then applies the updates. Each firing
    node's weights move by `alpha * state * (input - recon)`. Every node's bias moves by
    `beta * -activation`.
- **generate** runs the same scoring and inhibition. The activation is score + bias, with no
  input term. The output is the reconstruction, one entry per weight of the first SDR node.

The layout follows the source:

- Module `Gsdr` holds class `GSDR`. Its fields are the two pools (`seq<Node>`, overwritten
  in place) and `activeRatio`.
- Each method runs the loops of the source. It is proved to leave the pools equal to a
  function, in module `Pools`, of the pools it found.
- The lemmas in `Pools`, `Inhibition` and `Scoring` state what those functions promise.
  These lemmas cover:
  - the range of createRandom's weights;
  - the sign of the latent score and when it is zero;
  - binary states, upward-closed winners and the winner-count bound;
  - the delta rule, the bias rule and the zero-rate case;
  - the parameters generate leaves alone.
- `Scoring.Dot` is the input dot product.
- `Counting` holds set-size facts and the block layout of the generator's draws.

How the source's types are modelled:

- `float` is modelled as `real`.
- The `inhibition` counter is a `nat`.
- The firing test `inhibition < activeRatio * size` is the predicate `Inhibition.Wins`.
- The source's `sum += -delta * delta` is written `- Square(delta)`. `Square(d)` is `d * d`,
  so the value is the same.
- `learn`'s vectors are immutable `seq` values, so the model cannot modify them, just as
  the source's const references cannot.
- `generate` returns its output vector. The source resizes its output parameter and then
  overwrites every entry, so the vector's earlier contents never matter.
- The pools are private, so their shape is an object invariant, `Gsdr.GSDR.Valid`. Both
  pools hold the same number of nodes, and every node of a pool has that pool's width. The
  constructor and createRandom establish it, and learn and generate keep it. The two widths
  are ghost fields, because the source keeps them only in the weight vectors' sizes.

## Model

| member | source | states |
|---|---|---|
| Gsdr.GSDR.constructor | source/gsdr/GSDR.h:25-27 | a new object has two empty pools and activeRatio 0.1, and satisfies the invariant `Valid` |
| Gsdr.GSDR.Valid | source/gsdr/GSDR.h:18-20 | the object invariant on the private pools: both hold the same number of nodes, and every node of a pool has that pool's width |
| Gsdr.GSDR.CreateRandom | source/gsdr/GSDR.cpp:3-21 | both pools are resized to numHidden; SDR node i gets the numInputs draws of its block, latent node i the numForcedLatents draws that follow times the influence; the result is shaped, and when the draws are in range the weights are in [initMinWeight, initMaxWeight] and within the influence of 0; activeRatio is unchanged; afterwards `Valid` holds with widths numInputs and numForcedLatents |
| Gsdr.GSDR.DrawWeights | source/gsdr/GSDR.cpp:11-14 | the resized weight vector ends up exactly the next numInputs draws, and the generator advances by numInputs |
| Gsdr.GSDR.DrawLatentWeights | source/gsdr/GSDR.cpp:16-19 | the resized latent vector holds the next numForcedLatents draws, each times the influence, and the generator advances by that many |
| Gsdr.GSDR.Learn | source/gsdr/GSDR.cpp:23-83 | the pools become `Pools.Learned` of the old pools, and `Valid` is kept; inputs and forced latents are values and stay untouched |
| Gsdr.GSDR.Generate | source/gsdr/GSDR.cpp:85-131 | the pools and the output become `Pools.Generated` of the old pools, and `Valid` is kept |
| Gsdr.GSDR.FindLatentBiases | source/gsdr/GSDR.cpp:25-35 | the latent pool becomes `ScoreLatents`: each activation is the latent score, nothing else changes |
| Gsdr.GSDR.ActivateWithInputs | source/gsdr/GSDR.cpp:37-46 | each SDR activation becomes bias + input · weights + latent score, nothing else changes |
| Gsdr.GSDR.ActivateFromLatents | source/gsdr/GSDR.cpp:99-102 | each SDR activation becomes latent score + bias, nothing else changes |
| Gsdr.GSDR.Inhibit | source/gsdr/GSDR.cpp:48-61 | each state becomes the inhibition verdict on the activations found on entry |
| Gsdr.GSDR.CountInhibition | source/gsdr/GSDR.cpp:50-58 | the counter equals the rank of node i: the number of other nodes whose activation is at least its own |
| Gsdr.GSDR.Reconstruct | source/gsdr/GSDR.cpp:63-74 | entry d is Σ_k weights_k[d] * state_k, for every d below the requested length |
| Gsdr.GSDR.LearnReconstruction | source/gsdr/GSDR.cpp:76-82 | the SDR pool becomes `Updated`: delta rule on the weights, beta * -activation on every bias |
| Scoring.LatentScore | source/gsdr/GSDR.cpp:25-35 | the latent score -Σ (forced - w)² is never positive |
| Scoring.LatentScoreZeroIff | source/gsdr/GSDR.cpp:28-34 | the score is 0 exactly when the forced-latent vector equals the node's weights |
| Scoring.LatentScoreOfPrototype | source/gsdr/GSDR.cpp:28-34 | a node's own weights score 0 |
| Scoring.LatentScoreElsewhere | source/gsdr/GSDR.cpp:28-34 | any other vector of the same length scores strictly below 0 |
| Scoring.Dot | source/gsdr/GSDR.cpp:41-43 | Σ inputs_j * weights_j, summed in index order |
| Inhibition.CountAtLeast | source/gsdr/GSDR.cpp:52-58 | the counter never exceeds the number of other nodes seen |
| Inhibition.Rank | source/gsdr/GSDR.cpp:49-58 | the counter's final value for node i; a node never counts itself, so the rank is below H |
| Inhibition.State | source/gsdr/GSDR.cpp:60 | a node's state is exactly 0 or 1 |
| Inhibition.Wins | source/gsdr/GSDR.cpp:60 | the firing test: a count wins iff it is below activeRatio * H |
| Inhibition.CountAtLeastIsSize | source/gsdr/GSDR.cpp:52-58 | after n nodes the counter equals the number of other nodes below n at least as active |
| Inhibition.RankIsSize | source/gsdr/GSDR.cpp:49-60 | the rank is the size of the set of other nodes at least as active |
| Inhibition.WinnersUpwardClosed | source/gsdr/GSDR.cpp:52-60 | a node strictly more active than a winner also wins |
| Inhibition.TiedNodesAgree | source/gsdr/GSDR.cpp:52-60 | nodes with equal activation have equal rank and equal state |
| Inhibition.RankBelowAtMost | source/gsdr/GSDR.cpp:49-61 | at most m nodes have rank below m |
| Inhibition.RankBelowAtLeast | source/gsdr/GSDR.cpp:49-61 | with distinct activations at least m nodes (m <= H) have rank below m |
| Inhibition.QuotaPrefix | source/gsdr/GSDR.cpp:60 | the winning ranks are exactly those below the quota #{r in [0, H) : r < activeRatio * H} |
| Inhibition.QuotaAtMost | source/gsdr/GSDR.cpp:60 | the quota never exceeds H |
| Inhibition.WinnersAreRankBelowQuota | source/gsdr/GSDR.cpp:49-61 | the winners are exactly the nodes whose rank is below the quota |
| Inhibition.WinnerCountBound | source/gsdr/GSDR.cpp:49-61 | the number of winners never exceeds the quota, ties or not |
| Inhibition.WinnerCountExact | source/gsdr/GSDR.cpp:49-61 | with distinct activations the number of winners equals the quota |
| Inhibition.HalfOfTen | source/gsdr/GSDR.cpp:49-61 | activeRatio 0.5 over ten distinct activations fires exactly five nodes |
| Pools.Fit | source/gsdr/GSDR.cpp:11 | resizing a weight vector keeps its prefix and pads with zeros |
| Pools.Resized | source/gsdr/GSDR.cpp:4-5 | resizing a pool keeps the surviving nodes and appends all-zero nodes |
| Pools.SeededSDR | source/gsdr/GSDR.cpp:10-15 | every SDR node gets numInputs weights and keeps its other fields |
| Pools.SeededLatent | source/gsdr/GSDR.cpp:16-19 | every latent node gets numForcedLatents weights and keeps its other fields |
| Pools.Scaled | source/gsdr/GSDR.cpp:19 | a [-1, 1] draw times forceLatentInfluence |
| Pools.ScaledDraw | source/gsdr/GSDR.cpp:19 | a [-1, 1] draw times the influence lies within the influence of 0 |
| Pools.SeededSDRInRange | source/gsdr/GSDR.cpp:13-14 | a drawn SDR weight lies in [initMinWeight, initMaxWeight] |
| Pools.SeededLatentInRange | source/gsdr/GSDR.cpp:18-19 | a drawn latent weight lies in [-abs(influence), abs(influence)] |
| Pools.CreatedInRange | source/gsdr/GSDR.cpp:3-21 | after createRandom both pools hold numHidden nodes of the right widths, with all weights in range |
| Pools.CreatedKeepsScalars | source/gsdr/GSDR.cpp:4-5 | in each pool separately, a node that survives the resize keeps its own bias, activation and state, and a node the resize adds starts with all three at 0 |
| Pools.ScoreLatents | source/gsdr/GSDR.cpp:25-35 | scoring changes only activations, and every score is at most 0 |
| Pools.ScoredLatentZeroIff | source/gsdr/GSDR.cpp:25-35 | a latent node scores 0 iff the forced-latent vector equals its weights |
| Pools.ActivatedByInput | source/gsdr/GSDR.cpp:37-46 | learn's activation step changes only activations |
| Pools.ActivatedByLatent | source/gsdr/GSDR.cpp:99-102 | generate's activation step changes only activations |
| Pools.Inhibited | source/gsdr/GSDR.cpp:48-61 | inhibition changes only states, and every state is 0 or 1 |
| Pools.InhibitedFiring | source/gsdr/GSDR.cpp:48-61 | the nodes that fire are the winners of the activations, which stay as they were |
| Pools.Recon | source/gsdr/GSDR.cpp:66-73 | entry d of the reconstruction after n nodes: Σ weights_k[d] * state_k over k < n |
| Pools.ReconVec | source/gsdr/GSDR.cpp:63-74 | the reconstruction vector has one entry per input, entry d being `Recon` over all nodes |
| Pools.ReconIsWinnerSum | source/gsdr/GSDR.cpp:63-74 | after inhibition, recon[d] is the sum of weight d over the winners |
| Pools.WinnerSumSameWeights | source/gsdr/GSDR.cpp:63-74 | the winners' sum depends only on the weights, not on activation or state |
| Pools.Moved | source/gsdr/GSDR.cpp:78-79 | a node's weights moved by alpha * state * (input - recon); the width is kept, and a silent node (state 0) or alpha 0 leaves them as they were |
| Pools.Updated | source/gsdr/GSDR.cpp:76-82 | the update keeps pool size, weight widths, activations and states |
| Pools.UpdatedWeight | source/gsdr/GSDR.cpp:78-79 | a firing node's weight moves by alpha * (input - recon); a silent node's weight does not move |
| Pools.InhibitAndUpdateWeight | source/gsdr/GSDR.cpp:48-80 | after inhibit, reconstruct and update, a winner's weight moves by alpha * (input - Σ winners' weight) and a loser's stays |
| Pools.Learned | source/gsdr/GSDR.cpp:23-83 | learn keeps the pools' shape and size |
| Pools.LearnActivation | source/gsdr/GSDR.cpp:38-45 | the activation learn gives SDR node i: bias + input · weights + its latent node's score |
| Pools.LearnActivations | source/gsdr/GSDR.cpp:37-46 | learn's activations, one per SDR node |
| Pools.LearnActivationsAre | source/gsdr/GSDR.cpp:37-46 | learn's activations are bias + input · weights + latent score |
| Pools.LearnStates | source/gsdr/GSDR.cpp:37-61 | after learn the activations are those of the pre-update weights, and each state is the inhibition verdict on them |
| Pools.LearnWinnerBound | source/gsdr/GSDR.cpp:48-61 | learn never fires more nodes than the quota |
| Pools.LearnWeightRule | source/gsdr/GSDR.cpp:63-80 | each winner's weight j moves by alpha * (input_j - Σ winners' pre-update weight j); losers' weights are unchanged |
| Pools.LearnBiasRule | source/gsdr/GSDR.cpp:81 | every SDR node's bias, winner or loser, becomes bias - beta * activation |
| Pools.LearnKeepsLatents | source/gsdr/GSDR.cpp:25-35 | learn changes no latent weight or bias, and keeps the latent pool's size |
| Pools.LearnZeroRates | source/gsdr/GSDR.cpp:76-82 | with alpha = beta = 0, learn changes no SDR weight or bias |
| Pools.Generated | source/gsdr/GSDR.cpp:85-131 | generate keeps the pools' sizes; the output is as long as the first SDR node's weights |
| Pools.GenerateKeepsParameters | source/gsdr/GSDR.cpp:85-131 | generate changes no weight and no bias in either pool |
| Pools.GenerateActivations | source/gsdr/GSDR.cpp:99-102 | in generate, an activation is latent score + bias, with no input term |
| Pools.GenerateStates | source/gsdr/GSDR.cpp:104-117 | in generate, each state is the inhibition verdict on generate's activations |
| Pools.GenerationIsWinnerSum | source/gsdr/GSDR.cpp:119-130 | output entry d is the sum of weight d over the winning nodes |

## Left out

- `source/Demo.cpp` is not part of this model. It holds the dataset reading, the windowing
  and rendering, the keyboard-driven latent blending and the training loop.
- `std::mt19937` and `std::uniform_real_distribution` are not modelled. The generator is a
  sequence of draws, consumed in the source's order and assumed to be already in range.
  `Pools.DrawsInRange` is a hypothesis, not a consequence.
- Gsdr.GSDR.CreateRandom: the generator that the source advances through its reference is
  not returned. Negative sizes are excluded by `nat` parameters; the source would pass them
  to `resize` as huge unsigned values.
- Floating point is not modelled: rounding, NaN and infinity propagation, float overflow,
  and the float type of the `inhibition` counter. All arithmetic is exact over `real`, so the
  default ratio is exactly 0.1 rather than the nearest float.
- Gsdr.GSDR.Learn and Gsdr.GSDR.Generate require `Pools.Shaped`: one weight per input in
  every SDR node and one weight per forced latent in every latent node. GSDR.cpp checks no
  dimension and reports no error, so there is no error path to model. With longer weight
  vectors the source would still run, and with shorter ones it reads out of bounds.
- Gsdr.GSDR.Generate requires at least one SDR node, because GSDR.cpp:120 reads
  `_SDRNodes.front()`, which is undefined on an empty pool.
- The pools being private is expressed only through `Valid`. Dafny fields are visible, so
  nothing in the model stops outside code from assigning them. `activeRatio` is public in
  both.
- The accumulation order of float sums does not matter over `real`. The sums are still
  defined in the source's index order.
