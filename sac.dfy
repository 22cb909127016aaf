/** The SAC agent's bookkeeping (class SAC in sac_sp/SAC_class.py).  The
    policy network is not modelled: its mean output `mu` and sampled output
    `pi` for an observation are inputs, and so are the Gaussian draw and
    the indices `sample_batch` draws. */
module Sac {
  import opened Outcomes
  import opened Replay
  import opened Clipping

  /** Constructor defaults `replay_size=int(1e6)`, `act_noise=0.1`, and
      `learn`'s `batch_size=100`. */
  const DefaultReplaySize: nat := 1_000_000
  const DefaultActNoise: real := 0.1
  const DefaultBatchSize: nat := 100

  class Agent {
    const obsDim: nat
    const actDim: nat
    const actLimit: real
    const actionNoise: real
    const replayBuffer: ReplayBuffer
    var learnStep: nat

    ghost predicate Valid()
      reads replayBuffer, replayBuffer.Repr
    {
      && replayBuffer.Valid()
      && this !in replayBuffer.Repr
      && replayBuffer.obsDim == obsDim && replayBuffer.actDim == actDim
    }

    /** `SAC.__init__(a_dim, obs_dim, a_bound, replay_size, act_noise)`:
        `learn_step = 0` and an empty buffer of `replay_size` rows. */
    constructor (aDim: nat, obsDim: nat, aBound: real, replaySize: nat := DefaultReplaySize,
                 actNoise: real := DefaultActNoise)
      ensures Valid() && fresh(replayBuffer.Repr)
      ensures this.obsDim == obsDim && actDim == aDim && actLimit == aBound && actionNoise == actNoise
      ensures learnStep == 0
      ensures replayBuffer.maxSize == replaySize && replayBuffer.ptr == 0 && replayBuffer.size == 0
      ensures replayBuffer.history == []
    {
      this.obsDim, actDim, actLimit, actionNoise := obsDim, aDim, aBound, actNoise;
      learnStep := 0;
      replayBuffer := new ReplayBuffer(obsDim, aDim, replaySize);
    }

    /** `get_action(s, noise_scale)`, given the policy's mean `mu` and sample
        `pi` for `s` and the standard normal draw `noise`: a zero
        `noise_scale` selects `mu`, any other selects `pi`; then
        `noise_scale * noise` is added and the sum clipped to
        `[-act_limit, act_limit]`. */
    function GetAction(mu: seq<real>, pi: seq<real>, noiseScale: real, noise: seq<real>): (a: seq<real>)
      requires |mu| == actDim && |pi| == actDim && |noise| == actDim
      ensures |a| == actDim
      ensures noiseScale == 0.0 ==> a == ClipVec(mu, -actLimit, actLimit)
      ensures noiseScale != 0.0 ==>
        forall k :: 0 <= k < actDim ==> a[k] == Clip(pi[k] + noiseScale * noise[k], -actLimit, actLimit)
      ensures 0.0 <= actLimit ==> forall k :: 0 <= k < actDim ==> -actLimit <= a[k] <= actLimit
    {
      var base := if noiseScale == 0.0 then mu else pi;
      PerturbZero(mu, noise);
      ClipVec(Perturb(base, noiseScale, noise), -actLimit, actLimit)
    }

    /** The deterministic action: with `noise_scale = 0` neither `pi` nor the
        draw matters, and a mean inside the limits is returned as it is. */
    lemma MeanActionIsDeterministic(mu: seq<real>, pi: seq<real>, pi': seq<real>, noise: seq<real>, noise': seq<real>)
      requires |mu| == actDim && |pi| == actDim && |noise| == actDim && |pi'| == actDim && |noise'| == actDim
      ensures GetAction(mu, pi, 0.0, noise) == GetAction(mu, pi', 0.0, noise')
      ensures (forall k :: 0 <= k < actDim ==> -actLimit <= mu[k] <= actLimit) ==> GetAction(mu, pi, 0.0, noise) == mu
    {
      if forall k :: 0 <= k < actDim ==> -actLimit <= mu[k] <= actLimit {
        ClipVecInRange(mu, -actLimit, actLimit);
      }
    }

    /** `store_transition((s, a, r, s_, done))`: one `store` into the buffer. */
    method StoreTransition(t: Transition)
      requires Valid() && replayBuffer.maxSize > 0 && Fits(t, obsDim, actDim)
      modifies replayBuffer.Repr
      ensures Valid()
      ensures replayBuffer.history == old(replayBuffer.history) + [t]
      ensures replayBuffer.size == Min(old(replayBuffer.size) + 1, replayBuffer.maxSize)
      ensures learnStep == old(learnStep)
    {
      replayBuffer.Store(t.obs, t.act, t.rew, t.nextObs, t.done);
    }

    /** `learn(batch_size)`: one `sample_batch(batch_size)` (with the drawn
        indices passed in), one run of the training ops, and
        `learn_step += 1`.  On an empty buffer `sample_batch` raises for a
        non-zero batch size and the counter stays. */
    method Learn(idxs: seq<nat>, batchSize: nat := DefaultBatchSize) returns (r: Result<Batch, SampleError>)
      requires Valid()
      requires |idxs| == batchSize
      requires replayBuffer.size > 0 ==> forall k :: 0 <= k < batchSize ==> idxs[k] < replayBuffer.size
      modifies this
      ensures Valid()
      ensures r.Failure? <==> replayBuffer.size == 0 && batchSize > 0
      ensures r.Success? ==> learnStep == old(learnStep) + 1
      ensures r.Failure? ==> learnStep == old(learnStep)
      ensures r.Success? ==>
        (|r.value.obs1| == batchSize && |r.value.obs2| == batchSize && |r.value.acts| == batchSize
         && |r.value.rews| == batchSize && |r.value.done| == batchSize)
      ensures r.Success? ==> forall k :: 0 <= k < batchSize ==> BatchRow(r.value, k) == replayBuffer.Slots()[idxs[k]]
    {
      r := replayBuffer.SampleBatch(idxs, batchSize);
      if r.Success? {
        learnStep := learnStep + 1;
      }
    }
  }
}
