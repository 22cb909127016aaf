# Replay buffer and agent bookkeeping of the DDPG and SAC agents

This project models the sequential core of two TensorFlow reinforcement-learning
agents, DDPG (`ddpg_sp/DDPG_class.py`) and SAC (`sac_sp/SAC_class.py`), and
proves properties of the model in Dafny.

- **`Replay` (replay_buffer.dfy)** models the fixed-capacity circular
  experience-replay buffer `ReplayBuffer`. Both files hold the same code at
  lines 11-39, so it is modelled once. The class keeps the five parallel arrays
  `obs1_buf`, `obs2_buf`, `acts_buf`, `rews_buf` and `done_buf`, the write cursor
  `ptr`, the fill count `size` and the capacity `max_size`, plus a ghost history
  of every transition ever stored.
  - `Store` writes one slot and advances the cursor with wrap-around.
  - `SampleBatch` gathers the five arrays at given indices.
  - The FIFO behaviour is proved in two steps:
    - **`Layout`** is a value-level description of the slot contents after any
      sequence of stores.
    - **`Owner`** gives the insertion index that holds each slot: the latest one
      congruent to the slot modulo `max_size`.
  - From these, the filled slots read from the oldest one onwards are exactly the
    last `min(n, max_size)` transitions, in order of insertion.
- **`Modular` (modular.dfy)** defines remainder by repeated subtraction, which is
  what the proofs reason with, and proves that it equals `%`.
- **`Clipping` (clipping.dfy)** models `np.clip` and the noise addition of
  `get_action`.
- **`Checkpoint` (checkpoint.dfy)** models:
  - the checkpoint name `save_path + 'network-<step>'`;
  - `int(path.split('-')[-1])`, using Python's `int()` rules for base 10
    (surrounding whitespace as `int()` skips it, an optional sign, and digits
    with single underscores between them).
- **`Ddpg` (ddpg.dfy)** and **`Sac` (sac.dfy)** model the agents' `learn_step`
  counter, `get_action`, `store_transition`, `learn` and (for DDPG)
  `load_step_network`, together with the DDPG driver's rule for the stored
  `done` flag.

Inputs stand in for everything the model cannot compute:
- the network outputs (`pi`, and SAC's `mu`);
- the Gaussian draw of `np.random.randn`;
- the indices that `np.random.randint` draws in `sample_batch`;
- the checkpoint path that `tf.train.get_checkpoint_state` reports.

Reals stand in for float32.

Observations about the code:
- DDPG's `get_action` with `noise_scale=0` does not act deterministically. It
  replaces the scale with `action_noise`. So `test_agent`, whose comment says it
  takes deterministic actions, calls `get_action(s)` and acts with noise
  (`Ddpg.Agent.DefaultScaleIsActionNoise`, `Ddpg.Agent.DefaultActionIsPerturbed`).
  The model follows the code.
- In SAC, a zero scale selects the mean `mu`, and the added noise is then 0
  times the draw.
- The driver stores `done = False` on the last step of every episode (line 225),
  whatever ended it, and it never ends an episode early on `done`. The model
  follows the code.
- `np.clip(x, lo, hi)` evaluates `minimum(maximum(x, lo), hi)`, so with
  `lo > hi` the result is `hi`; `Clipping.Clip` does the same. The bound
  `[-act_limit, act_limit]` is proved for `act_limit >= 0`.
- The step parsed from a checkpoint path is never negative: the text after the
  last `-` contains no `-` (`Checkpoint.ParseStep`). So `learn_step` stays a
  natural number.

## Model

| member | source | states |
|---|---|---|
| Replay.ReplayBuffer.constructor | ddpg_sp/DDPG_class.py:16-22 | a fresh buffer has `ptr = 0`, `size = 0`, `max_size` = the requested capacity, five arrays of `max_size` rows, every row zero, and an empty history |
| Replay.ReplayBuffer.Store | ddpg_sp/DDPG_class.py:24-31 | requires `max_size > 0`; the transition is appended to the history; all five fields are written at the old `ptr` and no other slot changes; `ptr` moves to the next slot, wrapping to 0 after the last; `size` becomes `min(size + 1, max_size)`; the buffer invariant is kept |
| Replay.ReplayBuffer.WriteSlot | ddpg_sp/DDPG_class.py:25-29 | the five array writes change exactly slot `p`, which then holds the given transition |
| Replay.ReplayBuffer.SampleBatch | ddpg_sp/DDPG_class.py:33-39 | indices are in `[0, size)` when the buffer holds anything, and arbitrary otherwise: it fails exactly when the buffer is empty and `batch_size > 0` (`randint(0, 0, size=b)` raises); otherwise all five outputs have `batch_size` rows, and row `k` of each one comes from the same slot `idxs[k]`, which holds one of the last `size` transitions stored |
| Replay.ReplayBuffer.Contents | ddpg_sp/DDPG_class.py:24-31 | the filled slots read from the oldest one with wrap-around: `size` rows (none for capacity 0); what they hold is stated by `ContentsAreLatest` |
| Replay.ReplayBuffer.ContentsAreLatest | ddpg_sp/DDPG_class.py:24-31 | FIFO: the filled slots, read from the oldest one (slot 0 while filling, `ptr` once full), are the last `min(n, max_size)` transitions stored, in order |
| Replay.ReplayBuffer.SlotIsLatest | ddpg_sp/DDPG_class.py:24-31 | filled slot `i` holds the transition with the latest insertion index `o` such that `o % max_size == i`; no later stored transition has that remainder; `o` is one of the last `max_size` insertions |
| Replay.ReplayBuffer.CursorAfterStores | ddpg_sp/DDPG_class.py:30-31 | after `n` stores from empty: `ptr == n % max_size < max_size` and `size == min(n, max_size) <= max_size` |
| Replay.StoreAppends | ddpg_sp/DDPG_class.py:24-31 | one store appends the new row to the in-order contents and, when the buffer was full, drops the oldest row |
| Replay.WindowAfterStore | ddpg_sp/DDPG_class.py:24-31 | the last `m` transitions after one more store: the new transition is appended, and the oldest is dropped once there were `m` |
| Replay.StoreStep | ddpg_sp/DDPG_class.py:24-31 | writing slot `ptr`, advancing `ptr` and saturating `size` keeps the slot arrays, the cursor and the fill count consistent with the history extended by one transition |
| Replay.ConsistentContents | ddpg_sp/DDPG_class.py:24-31 | for consistent buffer values, reading from the oldest slot gives the last `min(n, m)` stores in order |
| Replay.ContentsOfLayout | ddpg_sp/DDPG_class.py:24-31 | the slot layout after any store sequence, read from the oldest slot, is the window of the latest stores |
| Replay.Layout | ddpg_sp/DDPG_class.py:17-31 | the slot contents after a sequence of stores into a fresh buffer: `m` rows, starting from the zero rows, store number `n` overwriting slot `n mod m`; what each slot then holds is stated by `LayoutSlot` |
| Replay.LayoutSlot | ddpg_sp/DDPG_class.py:17-31 | slot `i` holds the transition of its owner once one of the first `n` insertions reached it, and its zero row before that |
| Replay.LayoutAfterStore | ddpg_sp/DDPG_class.py:25-30 | store number `n` overwrites slot `n mod m` and leaves every other slot as it was |
| Replay.Owner | ddpg_sp/DDPG_class.py:24-31 | the insertion index holding slot `i` after `n` stores is below `n`, is congruent to `i`, and is one of the last `m` |
| Replay.OwnerIsLatest | ddpg_sp/DDPG_class.py:24-31 | no insertion after a slot's owner is congruent to that slot, so nothing later overwrote it |
| Replay.OwnerOfRecent | ddpg_sp/DDPG_class.py:24-31 | each of the last `m` insertions still owns its slot: the first `k` of `m + k` stores are overwritten, and none of the later ones is |
| Replay.RecentSlot | ddpg_sp/DDPG_class.py:24-31 | each of the last `m` stored transitions still sits in slot `index mod m` |
| Replay.InOrderHolds | ddpg_sp/DDPG_class.py:24-31 | position `k` of the in-order view holds insertion `n - min(n, m) + k` |
| Replay.InOrderSlot | ddpg_sp/DDPG_class.py:30 | position `k`, counted from the oldest slot with wrap-around, is slot `(n - min(n, m) + k) mod m` |
| Replay.NextSlot | ddpg_sp/DDPG_class.py:30 | `(ptr + 1) % max_size` is `ptr + 1`, or 0 when `ptr` is the last slot |
| Replay.DoneValue | ddpg_sp/DDPG_class.py:29 | the float stored for `done` is 1.0 exactly when `done` holds and 0.0 exactly when it does not |
| Replay.Gather | ddpg_sp/DDPG_class.py:35-39 | fancy indexing: output row `k` is source row `idxs[k]` and there are `len(idxs)` rows |
| Replay.Zeros | ddpg_sp/DDPG_class.py:17-21 | `np.zeros` rows have the requested width and every entry 0 |
| Modular.ModIsRemainder | ddpg_sp/DDPG_class.py:30 | the subtractive remainder the proofs use is Python's `%` for non-negative operands |
| Modular.ModSucc | ddpg_sp/DDPG_class.py:30 | the remainder of `x + 1` is one more than that of `x`, wrapping to 0 at `m` |
| Modular.ModOfSum | ddpg_sp/DDPG_class.py:30 | `((a mod m) + b) mod m == (a + b) mod m` |
| Modular.ModWindow | ddpg_sp/DDPG_class.py:30 | two indices less than `m` apart have different remainders, so `m` consecutive stores hit `m` different slots |
| Modular.ModUnique | ddpg_sp/DDPG_class.py:30 | `x == q*m + r` with `0 <= r < m` gives `x % m == r` |
| Clipping.Clip | ddpg_sp/DDPG_class.py:119 | `np.clip`: the result is in `[lo, hi]` when `lo <= hi`; a value inside is unchanged; below the interval the result is `lo`; above it, or when `hi < lo`, it is `hi` |
| Clipping.ClipVec | ddpg_sp/DDPG_class.py:119 | `np.clip` of a vector: the same length, each component clipped as by `Clip`; both agents' `get_action` (here and sac_sp/SAC_class.py:141) are computed through it |
| Clipping.ClipVecBounds | ddpg_sp/DDPG_class.py:119 | every component of a clipped vector lies in `[lo, hi]` |
| Clipping.ClipVecInRange | ddpg_sp/DDPG_class.py:119 | a vector already within the bounds is returned unchanged |
| Clipping.ClipVecIdempotent | ddpg_sp/DDPG_class.py:119 | clipping twice equals clipping once, including when `hi < lo` |
| Clipping.Perturb | ddpg_sp/DDPG_class.py:118 | `a += noise_scale * noise`, componentwise, same length |
| Clipping.PerturbZero | sac_sp/SAC_class.py:140 | a zero noise scale leaves the action unchanged |
| Ddpg.Agent.constructor | ddpg_sp/DDPG_class.py:43-83 | `learn_step = 0`; the limits, `action_noise` and dimensions are recorded; the buffer is fresh and empty with `replay_size` rows; the defaults are `replay_size = 10**6` and `act_noise = 0.1` |
| Ddpg.Agent.GetAction | ddpg_sp/DDPG_class.py:114-119 | the effective scale is `action_noise` when `noise_scale == 0` and `noise_scale` otherwise; component `k` is `clip(pi[k] + scale * noise[k], -act_limit, act_limit)`; every component is in `[-act_limit, act_limit]` when `act_limit >= 0` |
| Ddpg.Agent.DefaultScaleIsActionNoise | ddpg_sp/DDPG_class.py:114-116 | `get_action(s)` with the default `noise_scale=0` is `get_action(s, action_noise)` |
| Ddpg.Agent.DefaultActionIsPerturbed | ddpg_sp/DDPG_class.py:131-132 | so the action `test_agent` takes, commented as deterministic, differs from the actor output wherever the draw is non-zero and the clip does not bite |
| Ddpg.Agent.StoreTransition | ddpg_sp/DDPG_class.py:121-123 | one `store` of the transition: the history grows by it and `size` saturates; `learn_step` is untouched |
| Ddpg.Agent.Learn | ddpg_sp/DDPG_class.py:138-155 | one `sample_batch(batch_size)` whose five outputs are aligned on the drawn slots, then `learn_step` is incremented by exactly 1; on an empty buffer with `batch_size > 0` (the default 100 included) it raises and leaves `learn_step` unchanged |
| Ddpg.Agent.LoadStepNetwork | ddpg_sp/DDPG_class.py:157-164 | `learn_step` becomes the step the checkpoint path names; it is unchanged when there is no checkpoint, the path is empty, or `int()` rejects the suffix |
| Ddpg.StepToLoad | ddpg_sp/DDPG_class.py:158-163 | a missing or empty path is "no checkpoint"; otherwise the result succeeds exactly when the suffix after the last `-` parses, and then with that value |
| Ddpg.StoredDone | ddpg_sp/DDPG_class.py:225 | the stored `done` is false at `j == max_steps - 1` and equals the environment's `done` at every other step |
| Ddpg.StoredDoneOnlyFromEnv | ddpg_sp/DDPG_class.py:225 | a stored terminal flag always comes from the environment; the rule never invents one |
| Checkpoint.LastSegment | ddpg_sp/DDPG_class.py:162 | `split('-')[-1]`: a suffix of the path with no `-`, preceded by a `-` unless it is the whole path |
| Checkpoint.LastSegmentAfterDash | ddpg_sp/DDPG_class.py:162 | whatever precedes the last `-` is ignored |
| Checkpoint.ParseStep | ddpg_sp/DDPG_class.py:162 | `int(path.split('-')[-1])`; a parsed step is never negative |
| Checkpoint.StripLeftNoDash | ddpg_sp/DDPG_class.py:162 | a dash-free segment, once stripped, cannot start with a minus sign |
| Checkpoint.ParseInt | ddpg_sp/DDPG_class.py:162 | `int(s)` succeeds exactly on an optionally signed numeral surrounded by whitespace; an unsigned numeral gives a non-negative value |
| Checkpoint.ParseLiteral | ddpg_sp/DDPG_class.py:162 | the stripped text parses exactly when it is a numeral, optionally preceded by `+` or `-`; without a `-` the value is non-negative |
| Checkpoint.ParseIntRejectsSeparator | ddpg_sp/DDPG_class.py:162 | a text starting with one of the ASCII separators U+001C to U+001F, which `str.isspace` accepts, is rejected: they are not whitespace to `int()` |
| Checkpoint.ParseIntIgnoresSpace | ddpg_sp/DDPG_class.py:162 | leading and trailing whitespace do not change what `int()` returns |
| Checkpoint.StripAround | ddpg_sp/DDPG_class.py:162 | stripping ignores whitespace added on either side |
| Checkpoint.StripLeftSpaces | ddpg_sp/DDPG_class.py:162 | leading whitespace is removed however much there is |
| Checkpoint.StripRightSpaces | ddpg_sp/DDPG_class.py:162 | trailing whitespace is removed however much there is |
| Checkpoint.StripLeftAppend | ddpg_sp/DDPG_class.py:162 | stripping the left of `s + t` strips `s`, and reaches into `t` only when `s` is all whitespace |
| Checkpoint.StripLeft | ddpg_sp/DDPG_class.py:162 | the result is a suffix; everything removed is whitespace; it does not start with whitespace |
| Checkpoint.StripRight | ddpg_sp/DDPG_class.py:162 | the result is a prefix; everything removed is whitespace; it does not end with whitespace |
| Checkpoint.Strip | ddpg_sp/DDPG_class.py:162 | whitespace removed at both ends: no longer than the input, and neither starting nor ending with whitespace |
| Checkpoint.StripEmpty | ddpg_sp/DDPG_class.py:162 | the strip is empty exactly when the text is all whitespace |
| Checkpoint.StripUnspaced | ddpg_sp/DDPG_class.py:162 | a string with no whitespace at either end strips to itself |
| Checkpoint.DigitsOf | ddpg_sp/DDPG_class.py:162 | dropping underscores leaves a string without them unchanged |
| Checkpoint.DigitsOfChar | ddpg_sp/DDPG_class.py:162 | an underscore is dropped and any other character is kept |
| Checkpoint.DigitsOfAppend | ddpg_sp/DDPG_class.py:162 | dropping underscores works piece by piece: `DigitsOf(a + b) == DigitsOf(a) + DigitsOf(b)` |
| Checkpoint.UnderscoreIgnored | ddpg_sp/DDPG_class.py:162 | for a numeral `a + '_' + b`, `a + b` is a numeral too and `int(a + '_' + b) == int(a + b)`, so `int('1_000') == int('1000')` |
| Checkpoint.JoinNumeral | ddpg_sp/DDPG_class.py:162 | removing an underscore from a numeral leaves a numeral |
| Checkpoint.DropUnderscore | ddpg_sp/DDPG_class.py:162 | the digits of `a + '_' + b` are those of `a + b` |
| Checkpoint.SignedLiteral | ddpg_sp/DDPG_class.py:162 | for a numeral `d`, `int('+' + d) == int(d)` and `int('-' + d) == -int(d)` |
| Checkpoint.NumeralDigits | ddpg_sp/DDPG_class.py:162 | a numeral with its underscores dropped consists of digits only |
| Checkpoint.ParseDigits | ddpg_sp/DDPG_class.py:162 | `int()` of a plain digit string is the number those digits name |
| Checkpoint.NatToString | ddpg_sp/DDPG_class.py:166-168 | the step suffix the saver writes is a non-empty string of digits naming the step, with no leading zero |
| Checkpoint.CheckpointPath | ddpg_sp/DDPG_class.py:166-168 | the name `saver.save` writes starts with `save_path`, and its text after the last `-` is `str(step)` |
| Checkpoint.SuffixAfterDash | ddpg_sp/DDPG_class.py:162-168 | `a + b + '-' + seg` with a dash-free `seg` starts with `a` and splits on `-` to end with `seg` |
| Checkpoint.StepRoundTrip | ddpg_sp/DDPG_class.py:162-168 | the path saved at step `n` (`save_path + 'network-' + str(n)`) parses back to `n` |
| Sac.Agent.constructor | sac_sp/SAC_class.py:43-82 | `learn_step = 0`; the limits and dimensions are recorded; the buffer is fresh and empty with `replay_size` rows |
| Sac.Agent.GetAction | sac_sp/SAC_class.py:134-141 | `noise_scale == 0` gives `clip(mu)`; otherwise component `k` is `clip(pi[k] + noise_scale * noise[k])`; every component is in `[-act_limit, act_limit]` when `act_limit >= 0` |
| Sac.Agent.MeanActionIsDeterministic | sac_sp/SAC_class.py:134-141 | with `noise_scale = 0`, neither `pi` nor the draw matters, and a mean inside the limits is returned unchanged |
| Sac.Agent.StoreTransition | sac_sp/SAC_class.py:143-145 | one `store` of the transition; `learn_step` is untouched |
| Sac.Agent.Learn | sac_sp/SAC_class.py:160-170 | one `sample_batch(batch_size)` with aligned outputs, then `learn_step` is incremented by exactly 1; on an empty buffer with `batch_size > 0` (the default 100 included) it raises and leaves `learn_step` unchanged |

## Left out

- The TensorFlow graphs are left out: networks, losses, Adam optimisers, Polyak target averaging, the target initialisation, and the sessions that run them. These are foreign-library computations on float32 tensors. Network outputs are inputs to the model.
- Random number generation (`np.random.randint`, `randn`, `rand`) is left out. The drawn indices and noise are parameters.
- float32 rounding, NaN and infinities are left out. Reals are used throughout.
- NumPy broadcasting is left out. `store` and `get_action` require vectors of the declared widths.
- Replay.ReplayBuffer.Store: requires `max_size > 0`. With capacity 0 the row write already raises `IndexError`, so no store into such a buffer completes.
- Replay.ReplayBuffer.Store: its contract states the new history, cursor, count and slots. The FIFO order of the contents after a store follows from `ContentsAreLatest` together with `WindowAfterStore` or `StoreAppends`. It is not repeated as a postcondition of `Store`.
- `test_agent`, the DDPG driver loop, `print`, argparse and matplotlib are left out. They are environment I/O, float averaging and display. Only the `done` rule of line 225 is modelled.
- Checkpoint I/O is left out: `saver.restore`, `saver.save`, `tf.train.get_checkpoint_state`, `load_simple_network` and `save_simple_network`. Only the step suffix, which `save_step_network` writes and `load_step_network` reads, is modelled.
- Checkpoint.ParseInt: non-ASCII decimal digits, which Python's `int()` also accepts, are not modelled. The whitespace skipped is `int()`'s: `\t \n \v \f \r`, the blank, and the non-ASCII characters `str.isspace` accepts, without the ASCII separators U+001C to U+001F.
- Replay.ReplayBuffer.SampleBatch: with `batch_size = 0` on an empty buffer the model returns empty arrays. This follows numpy drawing a zero-size array before it checks the bounds.
- SAC's `__main__` block is left out. It calls an undefined `td3`.
- SAC's `test_agent` is left out. It calls a `choose_action` method that does not exist.
- Constructor parameters the source never reads are left out: `seed`, `batch_size`, `target_noise` and `noise_clip`. So is `policy_delay`, which the constructor stores in `self.policy_delay` and nothing uses.
- Constructor parameters only the TensorFlow graph reads are left out with it: `mlp_actor_critic`, `ac_kwargs`, `gamma` (the Bellman backup), `polyak` (target averaging), SAC's `alpha` (the entropy terms), and `pi_lr` and `q_lr` (the Adam optimisers).
