# Hyperparameter-optimisation wrapper, modelled in Dafny

This project models the HPO layer of an evolutionary-computation library. The layer has two parts:

- **`HPOFitnessMonitor`** watches an inner optimisation run and keeps the best (smallest) fitness reported to it.
  - Its constructor validates the multi-objective indicator.
  - `setup` sets the best fitness to +infinity.
  - `pre_tell` folds each rank-1 fitness vector into that running minimum.
  - `tell_fitness` reads the best fitness.
- **`HPOProblemWrapper`** turns a whole workflow (algorithm + problem + monitor) into a single problem whose solutions are hyperparameter sets.
  - `setup` finds which workflow-state keys hold the monitor's tensors (the monitor-key resolver) and keeps the batched step. It also chooses the first step: the workflow's own `init_step` when the class overrides it, the ordinary step otherwise.
  - `evaluate` validates the hyperparameters and injects them into a copy of the initial state. It then takes the first step once and the ordinary step `iterations - 1` times, and reads the monitor's fitness out of the final state.
  - `extract_parameters` keeps the `Parameter` entries of a state.

Files:

- `common.dfy` holds the shared vocabulary. It has result wrappers and one error constructor per assertion of the modelled code, and one per implicit exception the model covers (a missing key, an empty reduction, an attribute read before setup). Fitness values are `Scalar`: an integer or +infinity, totally ordered.
- `dicts.dfy` models Python dictionaries as insertion-ordered item sequences:
  - `Get` is the lookup behind `k in d` and `d[k]`: None exactly when `d[k]` would raise KeyError.
  - `Put` is `d[k] = v`: an existing key keeps its place, a new key goes to the end.
  - `Update` is `d.update(other)`.
- `hpo_monitor.dfy` holds the monitor: the class `HpoFitnessMonitor` with its `bestFitness` field, and the pure functions `Tell`/`TellAll` that specify it.
- `hpo_wrapper.dfy` holds the wrapper:
  - The resolver is the method `ResolveMonitorKeys`: a nested loop with `break`, proved against the function `Resolved`.
  - The reader of the monitor's fitness is `MonitorState`/`MonitorFitness`.
  - Hyperparameter validation is `CheckHyperParameters`.
  - The rollout is specified by `Trajectory` and `Repeat`.
  - Parameter extraction is `ExtractParameters`.
  - The class `HpoProblemWrapper` has methods `Setup` and `Evaluate`.

Object identity (Python's `is`) is modelled by a `handle` carried by every state entry: two entries are the same tensor object exactly when their handles are equal.

## Model

| member | source | states |
|---|---|---|
| HpoMonitor.CheckIndicator | src/problems/hpo_wrapper.py:38-47 | The indicator is accepted exactly when it is absent, and is then stored as None. Every string is refused with the error carrying its `capitalize()`d form. |
| HpoMonitor.CapitalizedNeverSupported | src/problems/hpo_wrapper.py:42-46 | No string, once capitalized, is "IGD" or "HV". Capitalize lower-cases every later character, and both names have an upper-case second letter. |
| HpoMonitor.Capitalize | src/problems/hpo_wrapper.py:42 | Same length; the first character is upper-cased; every later character is lower-cased, so none is an upper-case letter. |
| HpoMonitor.HpoFitnessMonitor.Create | src/problems/hpo_wrapper.py:29-47 | Construction succeeds exactly when no indicator is given. On failure the error is UnsupportedIndicator with the capitalized string. On success the indicator is None and the best fitness does not exist yet. |
| HpoMonitor.HpoFitnessMonitor.Setup | src/problems/hpo_wrapper.py:49-52 | The best fitness becomes +infinity. |
| HpoMonitor.MinOf | src/problems/hpo_wrapper.py:57 | `torch.min` of a non-empty vector is one of its elements and no larger than any element. |
| HpoMonitor.Tell | src/problems/hpo_wrapper.py:54-59 | A fitness of rank other than 1 changes nothing. A rank-1 fitness fails exactly when it is empty (EmptyReduction, raised first) or setup has not run (NotSetUp). Otherwise the new best is no larger than the old best and than every element, and equals the old best or one of the elements. |
| HpoMonitor.HpoFitnessMonitor.PreTell | src/problems/hpo_wrapper.py:54-59 | The field is updated exactly as `Tell` says. A raised error leaves the field unchanged. On a rank-1 fitness the new best is no larger than the old best and than every element. Any other rank always passes and leaves the field unchanged. |
| HpoMonitor.HpoFitnessMonitor.TellFitness | src/problems/hpo_wrapper.py:66-67 | Returns the best fitness when it exists, and fails with NotSetUp before setup. It reads the object and changes nothing. |
| HpoMonitor.TellAllFailsOnlyOnEmpty | src/problems/hpo_wrapper.py:49-59 | After setup, a run of `pre_tell` calls fails exactly when one of the fitnesses is an empty rank-1 vector, and then with EmptyReduction. |
| HpoMonitor.TellAllIsRunningMin | src/problems/hpo_wrapper.py:51-57 | After setup and any run of `pre_tell` calls, the best fitness is no larger than the starting value and than every element of every rank-1 fitness reported. It is the starting value or one of those elements. |
| HpoMonitor.TellAllFinite | src/problems/hpo_wrapper.py:51-57 | Once a finite element has been reported, the best fitness is finite. |
| HpoWrapper.HpoProblemWrapper.Create | src/problems/hpo_wrapper.py:73-78 | Construction succeeds exactly when both counts are positive. A non-positive `iterations` is reported first, then a non-positive `num_instances`. On success both counts are stored unchanged and setup has not run. |
| HpoWrapper.FindHandle | src/problems/hpo_wrapper.py:93-96 | The inner scan finds the first monitor entry that is the given object, or reports that none is. |
| HpoWrapper.ResolveMonitorKeys | src/problems/hpo_wrapper.py:90-96 | The nested loop with `break` builds exactly the map `Resolved`. |
| HpoWrapper.ResolvedOrigin | src/problems/hpo_wrapper.py:92-95 | Every resolved pair (k, sk) comes from a snapshot entry k and from the first monitor entry sk that is the same object. |
| HpoWrapper.ResolvedKeyAbsent | src/problems/hpo_wrapper.py:92-95 | Only snapshot keys are resolved. |
| HpoWrapper.ResolvedDistinct | src/problems/hpo_wrapper.py:91-96 | The resolved map has no repeated key. |
| HpoWrapper.ResolvedGet | src/problems/hpo_wrapper.py:91-96 | A snapshot key is resolved exactly when some monitor entry is the same object, and then to the first such monitor key. |
| HpoWrapper.ResolvedValuesDistinct | src/problems/hpo_wrapper.py:91-96 | If no two snapshot keys hold the same object, the resolved monitor keys are distinct keys of the monitor state. |
| HpoWrapper.CountCheckMeansCovered | src/problems/hpo_wrapper.py:97-99 | If no two snapshot keys hold the same object, the count check passes exactly when every monitor entry was resolved (both directions). |
| HpoWrapper.AliasedSnapshotPassesCountCheck | src/problems/hpo_wrapper.py:92-99 | A concrete snapshot with two keys holding one object passes the count check while a monitor entry stays unresolved. |
| HpoWrapper.MonitorState | src/problems/hpo_wrapper.py:102 | Rebuilding the monitor state succeeds exactly when every mapped state key is in `x`. |
| HpoWrapper.MonitorStateError | src/problems/hpo_wrapper.py:102 | The rebuild fails with MissingStateKey for the first mapped state key (in map order) that `x` lacks. |
| HpoWrapper.MonitorStateKeys | src/problems/hpo_wrapper.py:102 | The rebuilt state holds exactly the monitor keys of the map. |
| HpoWrapper.MonitorStatePairs | src/problems/hpo_wrapper.py:102 | When the map's monitor keys are distinct, every monitor key receives `x`'s value for its state key. |
| HpoWrapper.MonitorFitness | src/problems/hpo_wrapper.py:101-104 | The reader succeeds exactly when every mapped state key is in `x`. Otherwise it fails with a KeyError (MissingStateKey) on the first missing one in map order. On success, `tell` receives a dictionary whose keys are exactly the mapped monitor keys. When those monitor keys are distinct, that dictionary holds `x[k]` under every `sk` mapped from `k`. |
| HpoWrapper.ReaderUsesResolvedPairs | src/problems/hpo_wrapper.py:90-104 | With a snapshot without aliased objects, the reader hands every resolved monitor key the final state's value of its snapshot key, i.e. it builds `{sk: x[k]}` for exactly the resolved pairs. |
| HpoWrapper.HpoProblemWrapper.Setup | src/problems/hpo_wrapper.py:80-125 | Setup passes exactly when the monitor is an HPOMonitor and the count check holds. It keeps the invariant that the stored initial state is a dictionary. The errors come in source order, and a failure leaves the wrapper unchanged. On success the wrapper keeps the resolved keys and the batched step. Without an own `init_step` the first step is the ordinary step and the initial state is the ordinary batched one; otherwise both come from `init_step`. |
| HpoWrapper.CheckHyperParameters | src/problems/hpo_wrapper.py:129-135 | Validation passes exactly when every supplied key is in the initial state and both the stored and the supplied value are Parameters. Otherwise the first offending key (in dictionary order) raises MissingHyperParameter or NotParameter. |
| HpoWrapper.StartState | src/problems/hpo_wrapper.py:137-138 | The starting state has the keys of the initial state in the same order. Every supplied key holds its supplied value and every other key keeps its initial value. Every Parameter stays a Parameter. |
| HpoWrapper.StartStateAll | src/problems/hpo_wrapper.py:137-138 | The `StartState` facts for every key at once: the copy updated with validated hyperparameters is a dictionary, keeps the initial keys in order, and reads as the hyperparameters overriding the initial state. |
| HpoWrapper.Trajectory | src/problems/hpo_wrapper.py:139-141 | A rollout of n steps from s has n states. The first is the first step applied to s, and each later one is the ordinary step applied to the one before. |
| HpoWrapper.RolloutIsTrajectoryEnd | src/problems/hpo_wrapper.py:139-141 | One first step followed by n - 1 ordinary steps is the last state of the n-step rollout. |
| HpoWrapper.RolloutWithoutInitStep | src/problems/hpo_wrapper.py:115-118 | When the first step is the ordinary step, a rollout is exactly `iterations` ordinary steps. |
| HpoWrapper.HpoProblemWrapper.Evaluate | src/problems/hpo_wrapper.py:127-143 | Before setup it fails with NotSetUp. Invalid hyperparameters fail with the validation error. Otherwise the result is the fitness reader applied to the last state of the `iterations`-step rollout from the initial state overridden by the hyperparameters. The wrapper, including its initial state, is not changed. For a dictionary of hyperparameters that passes validation, the starting state is a dictionary with the initial state's keys in the same order. Every supplied key holds its supplied value there, and every other key keeps its initial value. |
| HpoWrapper.ExtractParameters | src/problems/hpo_wrapper.py:146-156 | Every extracted entry is an entry of the state and a Parameter, and every Parameter entry of the state is extracted. |
| HpoWrapper.ExtractParametersGet | src/problems/hpo_wrapper.py:156 | Read as a dictionary, the result maps each key to the state's entry when that entry is a Parameter, and to nothing otherwise. |
| HpoWrapper.ExtractParametersDistinct | src/problems/hpo_wrapper.py:156 | The extracted parameters of a dictionary form a dictionary. |
| HpoWrapper.ExtractParametersIdempotent | src/problems/hpo_wrapper.py:156 | Extracting twice gives what extracting once gives. |
| HpoWrapper.ExtractedParametersRoundTrip | src/problems/hpo_wrapper.py:129-138 | The parameters extracted from a state pass `evaluate`'s validation against that state, and injecting them gives the state back. |
| Common.Min | src/problems/hpo_wrapper.py:57 | The outer `torch.min` of two scalars is one of them and no larger than either. |
| Dicts.Get | src/problems/hpo_wrapper.py:131-133 | A lookup finds a value exactly when the key is present (`k in d`); otherwise `d[k]` raises KeyError (also the `x[k]` of line 102). |
| Dicts.GetMember | src/problems/hpo_wrapper.py:131-133 | In a dict, each stored item is what the lookup finds under its key. |
| Dicts.Put | src/problems/hpo_wrapper.py:95 | `d[k] = v` grows the dict by one entry exactly when `k` is new, and otherwise keeps its length (also each insertion of the comprehension at line 102). |
| Dicts.PutGet | src/problems/hpo_wrapper.py:95 | After `d[k] = v`, k holds v and every other key keeps its value. |
| Dicts.PutKeys | src/problems/hpo_wrapper.py:95 | `d[k] = v` keeps the keys and their order, and appends k when it is new. |
| Dicts.PutAbsent | src/problems/hpo_wrapper.py:95 | Assigning an absent key appends the item. |
| Dicts.Update | src/problems/hpo_wrapper.py:138 | `d.update(other)` assigns the items of `other` in order; the result is no shorter than `d` and gains at most one entry per item of `other`. |
| Dicts.UpdateGet | src/problems/hpo_wrapper.py:138 | After `d.update(other)`, every key of `other` holds its value from `other`, and every other key keeps its value from `d`. |
| Dicts.UpdateKeys | src/problems/hpo_wrapper.py:138 | When every key of `other` is already in `d`, the update keeps the keys of `d` in order. |

## Left out

- `use_state`, `vmap` and `jit` are opaque: their products (the traced batched step, the batched initial state for `num_instances` instances, and the monitor's load-and-tell) arrive as function-valued fields of `Workflow` and `Traced`. What tracing and batching do inside them is not modelled.
- Per-instance random-number independence under `vmap` is not modelled, because it belongs to that opaque machinery.
- The base `HPOMonitor.tell_fitness` that raises NotImplementedError is not modelled; only `HPOFitnessMonitor` is. `monitorIsHpo` stands for the `isinstance` test.
- `monitor.load_state_dict` inside the reader (line 103) is folded into the opaque `tellFitness` function of the workflow. Its strictness about missing or unexpected keys and the monitor state it leaves behind are not modelled.
- The second `monitor.load_state_dict(monitor_state)` in `setup` (line 113), which restores the monitor after tracing, is not modelled: it changes only the monitor object, which the model does not hold.
- `HpoWrapper.HpoProblemWrapper.Setup`: `jit(..., trace=True, example_inputs=(init_state,))` (lines 109-112) runs the step and the fitness reader once on the batched initial state during `setup`, so in Python a reader KeyError (or any error of the step) can already come out of `setup`. The model's `Setup` does not run them; such an error shows up only in `Evaluate`.
- `workflow.get_submodule("monitor")` (line 83) raises an AttributeError when the workflow has no monitor. The model has no error for it: a `Workflow` value always carries a monitor, and `monitorIsHpo` stands only for the `isinstance` test.
- The stored `self.workflow` (line 81) is not a field of the model. It is the one attribute the Python code sets before a failing assertion, so `HpoWrapper.HpoProblemWrapper.Setup` states "unchanged on failure" only for the modelled fields.
- The `isinstance(multi_obj_indicator, str)` assertion is a type check, so `Option<string>` rules it out.
- The commented-out multi-objective branch of `pre_tell` is not modelled, because it is unimplemented.
- `HpoMonitor.Capitalize`: models ASCII letters only; Python's Unicode case mapping (title case, characters that expand) is not modelled.
- Tensor arithmetic is not modelled: fitness values are integers or +infinity, so there are no NaNs and no floating-point rounding. `torch.min` is the minimum under this total order.
- `HpoWrapper.HpoProblemWrapper.Setup` requires the snapshot and the batched initial states the traced functions return to have distinct keys. It also requires and keeps the class invariant `Valid` (a set-up wrapper's initial state has distinct keys), which `Evaluate` requires too. Python dicts always have distinct keys, so these state what the type guarantees rather than demands on callers.
- `setup` checks only that the number of resolved keys equals the number of monitor entries (lines 97-99), and that is what is modelled. A check that every monitor entry is matched exactly once would be stricter. `CountCheckMeansCovered` shows the two agree when no object is reachable under two snapshot keys. `AliasedSnapshotPassesCountCheck` shows that they differ otherwise.
- The docstring says the indicators "IGD" and "HV" are supported, but the code as written refuses every indicator string; the model follows the code (`CheckIndicator`, `CapitalizedNeverSupported`).
