/** The DDPG agent's bookkeeping (class DDPG in ddpg_sp/DDPG_class.py) and the
    driver's rule for the stored `done` flag.  The actor and critic networks
    are not modelled: the actor output for an observation and the Gaussian
    draw are inputs, and so are the indices `sample_batch` draws. */
module Ddpg {
  import opened Outcomes
  import opened Replay
  import opened Clipping
  import opened Checkpoint

  /** Constructor defaults `replay_size=int(1e6)`, `act_noise=0.1`, and
      `learn`'s `batch_size=100`. */
  const DefaultReplaySize: nat := 1_000_000
  const DefaultActNoise: real := 0.1
  const DefaultBatchSize: nat := 100

  /** Why `load_step_network` left `learn_step` alone: no checkpoint state
      (or an empty path), or `int()` raised on the step suffix. */
  datatype LoadError = NoCheckpoint | BadStep(err: ParseError)

  /** Line 225 of the driver: `done = False if j == max_steps - 1 else done`,
      so the last step of an episode is never stored as terminal, whatever
      the environment reported, and every earlier step keeps its flag. */
  function StoredDone(j: int, maxSteps: int, envDone: bool): (d: bool)
    ensures j == maxSteps - 1 ==> !d
    ensures j != maxSteps - 1 ==> d == envDone
  {
    if j == maxSteps - 1 then false else envDone
  }

  /** The stored flag is never terminal unless the environment said so. */
  lemma StoredDoneOnlyFromEnv(j: int, maxSteps: int, envDone: bool)
    ensures StoredDone(j, maxSteps, envDone) ==> envDone
    ensures !envDone ==> !StoredDone(j, maxSteps, envDone)
  {
  }

  /** What `load_step_network` reads from the checkpoint path: a missing or
      empty path is no checkpoint; otherwise the step is the integer after
      the last `-`, and a suffix `int()` rejects is an error. */
  function StepToLoad(checkpointPath: Option<string>): (r: Result<nat, LoadError>)
    ensures r == Failure(NoCheckpoint) <==> checkpointPath == None || checkpointPath == Some([])
    ensures r.Success? ==> checkpointPath.Some? && ParseStep(checkpointPath.value) == Success(r.value as int)
    ensures checkpointPath.Some? && checkpointPath.value != [] ==>
      (r.Success? <==> ParseStep(checkpointPath.value).Success?)
  {
    if checkpointPath.None? || checkpointPath.value == [] then Failure(NoCheckpoint)
    else
      var step := ParseStep(checkpointPath.value);
      if step.Failure? then Failure(BadStep(step.error)) else Success(step.value)
  }

  class Agent {
    const obsDim: nat
    const actDim: nat
    const actLimit: real
    const actionNoise: real
    const replayBuffer: ReplayBuffer
    var learnStep: nat

    ghost predicate Valid()
      reads replayBuffer, replayBuffer.Repr
    {
      && replayBuffer.Valid()
      && this !in replayBuffer.Repr
      && replayBuffer.obsDim == obsDim && replayBuffer.actDim == actDim
    }

    /** `DDPG.__init__(a_dim, obs_dim, a_bound, replay_size, act_noise)`:
        `learn_step = 0` and an empty buffer of `replay_size` rows. */
    constructor (aDim: nat, obsDim: nat, aBound: real, replaySize: nat := DefaultReplaySize,
                 actNoise: real := DefaultActNoise)
      ensures Valid() && fresh(replayBuffer.Repr)
      ensures this.obsDim == obsDim && actDim == aDim && actLimit == aBound && actionNoise == actNoise
      ensures learnStep == 0
      ensures replayBuffer.maxSize == replaySize && replayBuffer.ptr == 0 && replayBuffer.size == 0
      ensures replayBuffer.history == []
    {
      this.obsDim, actDim, actLimit, actionNoise := obsDim, aDim, aBound, actNoise;
      learnStep := 0;
      replayBuffer := new ReplayBuffer(obsDim, aDim, replaySize);
    }

    /** `get_action(s, noise_scale)`, given the actor output `pi` for `s` and
        the standard normal draw `noise`: a zero `noise_scale` is replaced by
        `action_noise`, the scaled noise is added, and the sum is clipped to
        `[-act_limit, act_limit]`. */
    function GetAction(pi: seq<real>, noiseScale: real, noise: seq<real>): (a: seq<real>)
      requires |pi| == actDim && |noise| == actDim
      ensures |a| == actDim
      ensures noiseScale != 0.0 ==>
        forall k :: 0 <= k < actDim ==> a[k] == Clip(pi[k] + noiseScale * noise[k], -actLimit, actLimit)
      ensures noiseScale == 0.0 ==>
        forall k :: 0 <= k < actDim ==> a[k] == Clip(pi[k] + actionNoise * noise[k], -actLimit, actLimit)
      ensures 0.0 <= actLimit ==> forall k :: 0 <= k < actDim ==> -actLimit <= a[k] <= actLimit
    {
      var scale := if noiseScale == 0.0 then actionNoise else noiseScale;
      ClipVec(Perturb(pi, scale, noise), -actLimit, actLimit)
    }

    /** The default call `get_action(s)` that `test_agent` makes, though
        commented as deterministic, is the call with `noise_scale =
        action_noise`. */
    lemma DefaultScaleIsActionNoise(pi: seq<real>, noise: seq<real>)
      requires |pi| == actDim && |noise| == actDim
      ensures GetAction(pi, 0.0, noise) == GetAction(pi, actionNoise, noise)
    {
    }

    /** So with a non-zero `action_noise`, an action the limits do not
        reach differs from the actor output wherever the draw is non-zero. */
    lemma DefaultActionIsPerturbed(pi: seq<real>, noise: seq<real>, k: nat)
      requires |pi| == actDim && |noise| == actDim && k < actDim
      requires actionNoise != 0.0 && noise[k] != 0.0
      requires -actLimit <= pi[k] + actionNoise * noise[k] <= actLimit
      ensures GetAction(pi, 0.0, noise)[k] != pi[k]
    {
      assert actionNoise * noise[k] != 0.0;
    }

    /** `store_transition((s, a, r, s_, done))`: one `store` into the buffer. */
    method StoreTransition(t: Transition)
      requires Valid() && replayBuffer.maxSize > 0 && Fits(t, obsDim, actDim)
      modifies replayBuffer.Repr
      ensures Valid()
      ensures replayBuffer.history == old(replayBuffer.history) + [t]
      ensures replayBuffer.size == Min(old(replayBuffer.size) + 1, replayBuffer.maxSize)
      ensures learnStep == old(learnStep)
    {
      replayBuffer.Store(t.obs, t.act, t.rew, t.nextObs, t.done);
    }

    /** `learn(batch_size)`: one `sample_batch(batch_size)` (with the drawn
        indices passed in), the network updates, and `learn_step += 1`.  On
        an empty buffer `sample_batch` raises for a non-zero batch size and
        the counter stays. */
    method Learn(idxs: seq<nat>, batchSize: nat := DefaultBatchSize) returns (r: Result<Batch, SampleError>)
      requires Valid()
      requires |idxs| == batchSize
      requires replayBuffer.size > 0 ==> forall k :: 0 <= k < batchSize ==> idxs[k] < replayBuffer.size
      modifies this
      ensures Valid()
      ensures r.Failure? <==> replayBuffer.size == 0 && batchSize > 0
      ensures r.Success? ==> learnStep == old(learnStep) + 1
      ensures r.Failure? ==> learnStep == old(learnStep)
      ensures r.Success? ==>
        (|r.value.obs1| == batchSize && |r.value.obs2| == batchSize && |r.value.acts| == batchSize
         && |r.value.rews| == batchSize && |r.value.done| == batchSize)
      ensures r.Success? ==> forall k :: 0 <= k < batchSize ==> BatchRow(r.value, k) == replayBuffer.Slots()[idxs[k]]
    {
      r := replayBuffer.SampleBatch(idxs, batchSize);
      if r.Success? {
        learnStep := learnStep + 1;
      }
    }

    /** `load_step_network(saver, load_path)`, given the `model_checkpoint_path`
        of the checkpoint state (`None` when there is none): `learn_step`
        becomes the step the path names, and stays when there is none. */
    method LoadStepNetwork(checkpointPath: Option<string>) returns (r: Result<nat, LoadError>)
      requires Valid()
      modifies this
      ensures r == StepToLoad(checkpointPath)
      ensures learnStep == if r.Success? then r.value else old(learnStep)
      ensures Valid()
    {
      assert replayBuffer.Valid();
      r := StepToLoad(checkpointPath);
      if r.Success? {
        learnStep := r.value;
      }
    }
  }
}
