/** The HPO problem wrapper: it turns a whole optimisation workflow into one
    problem whose evaluation runs `iterations` batched workflow steps from
    the workflow's initial state with the given hyperparameters injected,
    and reads the monitor's best fitness out of the final state.

    Tracing (`use_state`), batching (`vmap`) and compilation (`jit`) are
    outside the model: what they produce for a workflow arrives here as
    values of `Workflow` and `Traced`, among them the pure batched step
    functions. */
module HpoWrapper {
  import opened Common
  import opened Dicts

  /** `torch.nn.Parameter` (a learnable hyperparameter) or a plain buffer. */
  datatype Kind = Parameter | Buffer

  /** A state entry: the identity of the tensor object (what Python's `is`
      compares), its kind and its elements. */
  datatype Entry = Entry(handle: nat, kind: Kind, data: Tensor)

  /** A workflow state snapshot: attribute path to tensor. */
  type State = Dict<Key, Entry>

  /** A workflow method after `use_state` and `vmap`: the batched initial
      state for a number of instances, and the pure batched step. */
  datatype Traced = Traced(initState: Positive -> State, step: State -> State)

  /** What `setup` learns from a workflow. `snapshot` is the non-batched
      `init_state(clone=False)` of the traced step, whose values are the
      workflow's live tensor objects; `monitorState` is
      `monitor.state_dict(keep_vars=True)`; `initStep` is None when the
      workflow's class keeps the base `Workflow.init_step`; `tellFitness`
      loads a monitor state dictionary into the monitor and calls its
      `tell_fitness`. */
  datatype Workflow = Workflow(
    monitorIsHpo: bool,
    monitorState: Dict<Key, Entry>,
    snapshot: State,
    step: Traced,
    initStep: Option<Traced>,
    tellFitness: Dict<Key, Entry> -> Tensor)

  /** No two keys of `s` hold the same tensor object. */
  predicate DistinctHandles(s: State) {
    forall a, b :: 0 <= a < b < |s| ==> s[a].value.handle != s[b].value.handle
  }

  // ---------------------------------------------------------------------
  // The monitor-key resolver

  /** The position of the first monitor entry that is the tensor object
      `h`, if any. */
  function FindHandle(ms: Dict<Key, Entry>, h: nat): (r: Option<nat>)
    ensures r.Some? ==> r.value < |ms| && ms[r.value].value.handle == h
    ensures r.Some? ==> forall j :: 0 <= j < r.value ==> ms[j].value.handle != h
    ensures r.None? <==> forall j :: 0 <= j < |ms| ==> ms[j].value.handle != h
  {
    if ms == [] then None
    else if ms[0].value.handle == h then Some(0)
    else
      match FindHandle(ms[1..], h)
      case None => None
      case Some(i) => Some(i + 1)
  }

  /** The monitor-key map the resolver builds: for each snapshot key, in
      order, the key of the first monitor entry that is the same object;
      snapshot keys without such an entry are left out. */
  function Resolved(s: State, ms: Dict<Key, Entry>): (r: Dict<Key, Key>)
    ensures |r| <= |s|
    decreases |s|
  {
    if s == [] then []
    else
      var prev := Resolved(s[..|s| - 1], ms);
      var last := s[|s| - 1];
      match FindHandle(ms, last.value.handle)
      case None => prev
      case Some(j) => prev + [Item(last.key, ms[j].key)]
  }

  /** Where the `i`-th resolved pair comes from: a snapshot entry `a` and
      the first monitor entry `j` that is the same object. */
  lemma {:induction false} ResolvedOrigin(s: State, ms: Dict<Key, Entry>, i: nat) returns (a: nat, j: nat)
    requires i < |Resolved(s, ms)|
    ensures a < |s| && FindHandle(ms, s[a].value.handle) == Some(j)
    ensures Resolved(s, ms)[i] == Item(s[a].key, ms[j].key)
    decreases |s|
  {
    var init := s[..|s| - 1];
    var prev := Resolved(init, ms);
    if i < |prev| {
      a, j := ResolvedOrigin(init, ms, i);
      assert init[a] == s[a];
    } else {
      a, j := |s| - 1, FindHandle(ms, s[|s| - 1].value.handle).value;
    }
  }

  /** Only snapshot keys are resolved. */
  lemma ResolvedKeyAbsent(s: State, ms: Dict<Key, Entry>, k: Key)
    requires k !in KeysOf(s)
    ensures k !in KeysOf(Resolved(s, ms))
  {
    var r := Resolved(s, ms);
    forall i | 0 <= i < |r| ensures KeysOf(r)[i] != k {
      var a, j := ResolvedOrigin(s, ms, i);
      assert KeysOf(s)[a] == s[a].key;
    }
  }

  /** `setup`'s nested loop: for every snapshot entry, scan the monitor
      state and record the first monitor key whose value `is` the entry's
      value, then stop scanning. */
  method ResolveMonitorKeys(snapshot: State, monitorState: Dict<Key, Entry>)
    returns (monitorKeys: Dict<Key, Key>)
    requires DistinctKeys(snapshot)
    ensures monitorKeys == Resolved(snapshot, monitorState)
  {
    monitorKeys := [];
    for a := 0 to |snapshot|
      invariant monitorKeys == Resolved(snapshot[..a], monitorState)
    {
      var k, v := snapshot[a].key, snapshot[a].value;
      assert snapshot[..a + 1][..a] == snapshot[..a] && snapshot[..a + 1][a] == snapshot[a];
      var b := 0;
      while b < |monitorState|
        invariant 0 <= b <= |monitorState|
        invariant forall j :: 0 <= j < b ==> monitorState[j].value.handle != v.handle
      {
        var sk, sv := monitorState[b].key, monitorState[b].value;
        if sv.handle == v.handle {
          assert FindHandle(monitorState, v.handle) == Some(b);
          assert k !in KeysOf(snapshot[..a]) by {
            forall i | 0 <= i < a ensures KeysOf(snapshot[..a])[i] != k {
              assert KeysOf(snapshot[..a])[i] == snapshot[i].key;
            }
          }
          ResolvedKeyAbsent(snapshot[..a], monitorState, k);
          PutAbsent(monitorKeys, k, sk);
          monitorKeys := Put(monitorKeys, k, sk);
          break;
        }
        b := b + 1;
      }
    }
    assert snapshot[..|snapshot|] == snapshot;
  }

  /** The resolved map is a dict: every snapshot key occurs at most once. */
  lemma {:induction false} ResolvedDistinct(s: State, ms: Dict<Key, Entry>)
    requires DistinctKeys(s)
    ensures DistinctKeys(Resolved(s, ms))
    decreases |s|
  {
    if s != [] {
      var init := s[..|s| - 1];
      var last := s[|s| - 1];
      var prev := Resolved(init, ms);
      assert DistinctKeys(init);
      ResolvedDistinct(init, ms);
      match FindHandle(ms, last.value.handle)
      case None =>
      case Some(j) =>
        LastKeyAbsent(s);
        ResolvedKeyAbsent(init, ms, last.key);
        PutAbsent(prev, last.key, ms[j].key);
        PutDistinct(prev, last.key, ms[j].key);
    }
  }

  /** In a dict, the last key does not occur before it. */
  lemma LastKeyAbsent(s: State)
    requires DistinctKeys(s) && s != []
    ensures s[|s| - 1].key !in KeysOf(s[..|s| - 1])
  {
    var init := s[..|s| - 1];
    forall i | 0 <= i < |init| ensures KeysOf(init)[i] != s[|s| - 1].key {
      assert KeysOf(init)[i] == s[i].key;
    }
  }

  /** The resolved map, read as a dictionary: a snapshot key is mapped
      exactly when some monitor entry is the same object, and then to the
      first such monitor key. */
  lemma {:induction false} ResolvedGet(s: State, ms: Dict<Key, Entry>, a: nat)
    requires DistinctKeys(s)
    requires a < |s|
    ensures Get(Resolved(s, ms), s[a].key) ==
      match FindHandle(ms, s[a].value.handle)
      case None => None
      case Some(j) => Some(ms[j].key)
    decreases |s|
  {
    var init := s[..|s| - 1];
    var last := s[|s| - 1];
    var prev := Resolved(init, ms);
    LastKeyAbsent(s);
    ResolvedKeyAbsent(init, ms, last.key);
    if a < |s| - 1 {
      assert DistinctKeys(init);
      ResolvedGet(init, ms, a);
      assert init[a] == s[a];
      assert s[a].key != last.key;
    }
    match FindHandle(ms, last.value.handle)
    case None =>
    case Some(j) =>
      PutAbsent(prev, last.key, ms[j].key);
      PutGet(prev, last.key, ms[j].key, s[a].key);
  }

  /** Distinct snapshot objects resolve to distinct monitor keys, all of
      them keys of the monitor state. */
  lemma {:induction false} ResolvedValuesDistinct(s: State, ms: Dict<Key, Entry>)
    requires DistinctHandles(s) && DistinctKeys(ms)
    ensures forall i :: 0 <= i < |Resolved(s, ms)| ==> Resolved(s, ms)[i].value in KeysOf(ms)
    ensures forall i, i' :: 0 <= i < i' < |Resolved(s, ms)| ==> Resolved(s, ms)[i].value != Resolved(s, ms)[i'].value
    decreases |s|
  {
    var r := Resolved(s, ms);
    forall i | 0 <= i < |r| ensures r[i].value in KeysOf(ms) {
      var a, j := ResolvedOrigin(s, ms, i);
      assert KeysOf(ms)[j] == ms[j].key;
    }
    if s != [] {
      var init := s[..|s| - 1];
      var last := s[|s| - 1];
      var prev := Resolved(init, ms);
      assert DistinctHandles(init);
      ResolvedValuesDistinct(init, ms);
      match FindHandle(ms, last.value.handle)
      case None =>
      case Some(j) =>
        forall i | 0 <= i < |prev| ensures prev[i].value != ms[j].key {
          var a, j' := ResolvedOrigin(init, ms, i);
          assert init[a] == s[a];
        }
    }
  }

  /** The number of distinct elements of a duplicate-free sequence is its
      length. */
  lemma {:induction false} DistinctCard<T>(xs: seq<T>)
    requires forall i, i' :: 0 <= i < i' < |xs| ==> xs[i] != xs[i']
    ensures |set x | x in xs| == |xs|
  {
    if xs != [] {
      var rest := xs[1..];
      DistinctCard(rest);
      assert (set x | x in xs) == {xs[0]} + (set x | x in rest);
      assert xs[0] !in rest;
    }
  }

  /** A subset as large as its superset is the whole superset. */
  lemma SubsetEqualCard<T>(a: set<T>, b: set<T>)
    requires a <= b && |a| == |b|
    ensures a == b
  {
    var d := b - a;
    assert b == a + d;
    assert a * d == {};
  }

  /** Two duplicate-free sequences, the first drawn from the second, have
      the same length exactly when the first covers the second. */
  lemma CoverIffSameLength<T>(vals: seq<T>, keys: seq<T>)
    requires forall i, i' :: 0 <= i < i' < |vals| ==> vals[i] != vals[i']
    requires forall i, i' :: 0 <= i < i' < |keys| ==> keys[i] != keys[i']
    requires forall i :: 0 <= i < |vals| ==> vals[i] in keys
    ensures |vals| == |keys| <==> forall b :: 0 <= b < |keys| ==> keys[b] in vals
  {
    DistinctCard(vals);
    DistinctCard(keys);
    var vs := set x | x in vals;
    var ks := set x | x in keys;
    assert vs <= ks;
    if |vals| == |keys| {
      SubsetEqualCard(vs, ks);
      forall b | 0 <= b < |keys| ensures keys[b] in vals {
        assert keys[b] in ks;
      }
    }
    if forall b :: 0 <= b < |keys| ==> keys[b] in vals {
      assert ks <= vs;
      assert vs == ks;
      assert |vals| == |vs| == |ks| == |keys|;
    }
  }

  /** `setup` checks only that the resolver found as many keys as the
      monitor has entries. When no two snapshot keys hold the same object,
      that count check holds exactly when every monitor entry was
      resolved. */
  lemma CountCheckMeansCovered(s: State, ms: Dict<Key, Entry>)
    requires DistinctHandles(s) && DistinctKeys(ms)
    ensures |Resolved(s, ms)| == |ms| <==>
            forall b :: 0 <= b < |ms| ==> ms[b].key in ValuesOf(Resolved(s, ms))
  {
    var r := Resolved(s, ms);
    ResolvedValuesDistinct(s, ms);
    var vals, keys := ValuesOf(r), KeysOf(ms);
    CoverIffSameLength(vals, keys);
    assert |vals| == |r| && |keys| == |ms|;
    assert forall b :: 0 <= b < |ms| ==> keys[b] == ms[b].key;
  }

  /** When two snapshot keys hold the same object, the count check can pass
      although a monitor entry was never resolved: both keys resolve to the
      first monitor key and the second one is missed. */
  lemma AliasedSnapshotPassesCountCheck()
    ensures var t := Entry(0, Buffer, []);
            var s := [Item("algorithm.fit", t), Item("monitor.best_fitness", t)];
            var ms := [Item("best_fitness", t), Item("count", Entry(1, Buffer, []))];
            |Resolved(s, ms)| == |ms| && "count" !in ValuesOf(Resolved(s, ms))
  {
    var t := Entry(0, Buffer, []);
    var s := [Item("algorithm.fit", t), Item("monitor.best_fitness", t)];
    var ms := [Item("best_fitness", t), Item("count", Entry(1, Buffer, []))];
    assert s[..1] == [s[0]] && s[..1][..0] == [];
    assert Resolved(s, ms) == [Item("algorithm.fit", "best_fitness"), Item("monitor.best_fitness", "best_fitness")];
  }

  // ---------------------------------------------------------------------
  // Reading the fitness out of a state

  /** `{sk: x[k] for k, sk in monitor_keys.items()}`: succeeds exactly
      when every state key of the map is in `x`, and then holds exactly
      the monitor keys of the map. */
  function MonitorState(keys: Dict<Key, Key>, x: State): (r: Result<Dict<Key, Entry>, Error>)
    ensures r.Success? <==> forall i :: 0 <= i < |keys| ==> keys[i].key in KeysOf(x)
    decreases |keys|
  {
    if keys == [] then Success([])
    else
      var init := keys[..|keys| - 1];
      var last := keys[|keys| - 1];
      assert forall i :: 0 <= i < |init| ==> init[i] == keys[i];
      var prev := MonitorState(init, x);
      if prev.Failure? then prev
      else if last.key !in KeysOf(x) then Failure(MissingStateKey(last.key))
      else Success(Put(prev.value, last.value, Get(x, last.key).value))
  }

  /** The comprehension raises `KeyError` on the first state key (in map
      order) that `x` lacks. */
  lemma {:induction false} MonitorStateError(keys: Dict<Key, Key>, x: State) returns (i: nat)
    requires MonitorState(keys, x).Failure?
    ensures i < |keys| && keys[i].key !in KeysOf(x)
    ensures forall j :: 0 <= j < i ==> keys[j].key in KeysOf(x)
    ensures MonitorState(keys, x).error == MissingStateKey(keys[i].key)
    decreases |keys|
  {
    var init := keys[..|keys| - 1];
    var last := keys[|keys| - 1];
    assert forall j :: 0 <= j < |init| ==> init[j] == keys[j];
    var prev := MonitorState(init, x);
    if prev.Failure? {
      assert MonitorState(keys, x) == Failure(prev.error);
      i := MonitorStateError(init, x);
    } else {
      assert Get(x, last.key).None?;
      assert MonitorState(keys, x) == Failure(MissingStateKey(last.key));
      i := |keys| - 1;
    }
  }

  /** The rebuilt monitor state holds exactly the monitor keys of the map. */
  lemma {:induction false} MonitorStateKeys(keys: Dict<Key, Key>, x: State, sk: Key)
    requires MonitorState(keys, x).Success?
    ensures sk in KeysOf(MonitorState(keys, x).value) <==> sk in ValuesOf(keys)
    decreases |keys|
  {
    if keys != [] {
      var init := keys[..|keys| - 1];
      var last := keys[|keys| - 1];
      assert forall j :: 0 <= j < |init| ==> init[j] == keys[j];
      assert ValuesOf(keys) == ValuesOf(init) + [last.value];
      MonitorStateKeys(init, x, sk);
      PutKeys(MonitorState(init, x).value, last.value, Get(x, last.key).value);
    }
  }

  /** When no two state keys map to the same monitor key, every monitor key
      receives the value of its state key. */
  lemma {:induction false} MonitorStatePairs(keys: Dict<Key, Key>, x: State, i: nat)
    requires MonitorState(keys, x).Success?
    requires forall a, b :: 0 <= a < b < |keys| ==> keys[a].value != keys[b].value
    requires i < |keys|
    ensures Get(MonitorState(keys, x).value, keys[i].value) == Get(x, keys[i].key)
    decreases |keys|
  {
    var init := keys[..|keys| - 1];
    var last := keys[|keys| - 1];
    assert forall a :: 0 <= a < |init| ==> init[a] == keys[a];
    PutGet(MonitorState(init, x).value, last.value, Get(x, last.key).value, keys[i].value);
    if i < |keys| - 1 {
      MonitorStatePairs(init, x, i);
    }
  }

  /** Everything the rebuilt monitor state promises at once: its keys are
      exactly the monitor keys of the map, and when no two state keys share
      a monitor key every monitor key holds `x`'s value of its state key. */
  lemma MonitorStateMeaning(keys: Dict<Key, Key>, x: State)
    requires MonitorState(keys, x).Success?
    ensures forall sk :: sk in KeysOf(MonitorState(keys, x).value) <==> sk in ValuesOf(keys)
    ensures (forall a, b :: 0 <= a < b < |keys| ==> keys[a].value != keys[b].value) ==>
            forall i :: 0 <= i < |keys| ==> Get(MonitorState(keys, x).value, keys[i].value) == Get(x, keys[i].key)
  {
    forall sk ensures sk in KeysOf(MonitorState(keys, x).value) <==> sk in ValuesOf(keys) {
      MonitorStateKeys(keys, x, sk);
    }
    if forall a, b :: 0 <= a < b < |keys| ==> keys[a].value != keys[b].value {
      forall i | 0 <= i < |keys| ensures Get(MonitorState(keys, x).value, keys[i].value) == Get(x, keys[i].key) {
        MonitorStatePairs(keys, x, i);
      }
    }
  }

  /** The comprehension's failure, as an existential: some mapped state key
      is missing from `x`, every earlier one is present, and the error
      names it. */
  lemma MonitorStateFailure(keys: Dict<Key, Key>, x: State)
    requires MonitorState(keys, x).Failure?
    ensures exists i :: 0 <= i < |keys| && keys[i].key !in KeysOf(x)
                        && (forall j :: 0 <= j < i ==> keys[j].key in KeysOf(x))
                        && MonitorState(keys, x).error == MissingStateKey(keys[i].key)
  {
    var i := MonitorStateError(keys, x);
  }

  /** `get_monitor_fitness`: rebuild the monitor's state dictionary from
      the resolved keys, load it and ask the monitor for its fitness. It
      fails with a KeyError on the first mapped state key that `x` lacks;
      otherwise `tell` receives the dictionary whose keys are exactly the
      mapped monitor keys and, when those are distinct, which holds
      `x[k]` under every monitor key `sk` mapped from `k`. */
  function MonitorFitness(keys: Dict<Key, Key>, tell: Dict<Key, Entry> -> Tensor, x: State): (r: Result<Tensor, Error>)
    ensures r.Success? <==> forall i :: 0 <= i < |keys| ==> keys[i].key in KeysOf(x)
    ensures r.Failure? ==> exists i :: 0 <= i < |keys| && keys[i].key !in KeysOf(x)
                                      && (forall j :: 0 <= j < i ==> keys[j].key in KeysOf(x))
                                      && r.error == MissingStateKey(keys[i].key)
    ensures r.Success? ==>
      var d := MonitorState(keys, x).value;
      && r.value == tell(d)
      && (forall sk :: sk in KeysOf(d) <==> sk in ValuesOf(keys))
      && ((forall a, b :: 0 <= a < b < |keys| ==> keys[a].value != keys[b].value) ==>
          forall i :: 0 <= i < |keys| ==> Get(d, keys[i].value) == Get(x, keys[i].key))
  {
    var m := MonitorState(keys, x);
    if m.Failure? then
      MonitorStateFailure(keys, x);
      Failure(m.error)
    else
      MonitorStateMeaning(keys, x);
      Success(tell(m.value))
  }

  /** With a resolver map built from a snapshot without aliased objects,
      the reader hands every resolved monitor key the final state's value
      of its snapshot key. */
  lemma ReaderUsesResolvedPairs(s: State, ms: Dict<Key, Entry>, x: State, i: nat)
    requires DistinctHandles(s) && DistinctKeys(ms)
    requires MonitorState(Resolved(s, ms), x).Success?
    requires i < |Resolved(s, ms)|
    ensures Get(MonitorState(Resolved(s, ms), x).value, Resolved(s, ms)[i].value) == Get(x, Resolved(s, ms)[i].key)
  {
    ResolvedValuesDistinct(s, ms);
    MonitorStatePairs(Resolved(s, ms), x, i);
  }

  // ---------------------------------------------------------------------
  // Hyperparameter validation

  /** One hyperparameter is acceptable when its key is in the initial state
      and both the stored and the supplied value are Parameters. */
  predicate ValidHyperParameter(init: State, it: Item<Key, Entry>) {
    match Get(init, it.key)
    case None => false
    case Some(stored) => stored.kind == Parameter && it.value.kind == Parameter
  }

  /** The assertion that fails on an unacceptable hyperparameter. */
  function HyperParameterError(init: State, it: Item<Key, Entry>): Error {
    if it.key in KeysOf(init) then NotParameter(it.key) else MissingHyperParameter(it.key)
  }

  /** `evaluate`'s first loop: the hyperparameters are accepted exactly
      when each is acceptable; otherwise the first unacceptable one (in
      dictionary order) raises. */
  function CheckHyperParameters(init: State, hp: State): (r: Outcome<Error>)
    ensures r.Pass? <==> forall i :: 0 <= i < |hp| ==> ValidHyperParameter(init, hp[i])
    ensures r.Fail? ==> exists i :: 0 <= i < |hp| && !ValidHyperParameter(init, hp[i])
                                   && r.error == HyperParameterError(init, hp[i])
                                   && forall j :: 0 <= j < i ==> ValidHyperParameter(init, hp[j])
    decreases |hp|
  {
    if hp == [] then Pass
    else
      var k, v := hp[0].key, hp[0].value;
      var rest := CheckHyperParameters(init, hp[1..]);
      assert forall i :: 1 <= i < |hp| ==> hp[i] == hp[1..][i - 1];
      match Get(init, k)
      case None => Fail(MissingHyperParameter(k))
      case Some(stored) =>
        if stored.kind != Parameter || v.kind != Parameter then Fail(NotParameter(k))
        else
          assert ValidHyperParameter(init, hp[0]);
          rest
  }

  /** The state `evaluate` starts from: the initial state with every
      accepted hyperparameter overriding its entry; the keys and their
      order are those of the initial state, every other entry is
      unchanged, and every overridden entry is still a Parameter. */
  lemma StartState(init: State, hp: State, k: Key)
    requires DistinctKeys(init) && DistinctKeys(hp)
    requires CheckHyperParameters(init, hp).Pass?
    ensures DistinctKeys(Update(init, hp))
    ensures KeysOf(Update(init, hp)) == KeysOf(init)
    ensures Get(Update(init, hp), k) == if k in KeysOf(hp) then Get(hp, k) else Get(init, k)
    ensures Get(Update(init, hp), k).Some? && Get(init, k).Some? && Get(init, k).value.kind == Parameter ==>
            Get(Update(init, hp), k).value.kind == Parameter
  {
    forall i | 0 <= i < |hp| ensures hp[i].key in KeysOf(init) {
      assert ValidHyperParameter(init, hp[i]);
    }
    UpdateDistinct(init, hp);
    UpdateKeys(init, hp);
    UpdateGet(init, hp, k);
    if k in KeysOf(hp) {
      var i :| 0 <= i < |hp| && hp[i].key == k;
      GetMember(hp, i);
      assert ValidHyperParameter(init, hp[i]);
    }
  }

  /** `StartState` for every key at once. */
  lemma StartStateAll(init: State, hp: State)
    requires DistinctKeys(init) && DistinctKeys(hp)
    requires CheckHyperParameters(init, hp).Pass?
    ensures DistinctKeys(Update(init, hp)) && KeysOf(Update(init, hp)) == KeysOf(init)
    ensures forall k :: Get(Update(init, hp), k) == if k in KeysOf(hp) then Get(hp, k) else Get(init, k)
  {
    forall k ensures Get(Update(init, hp), k) == if k in KeysOf(hp) then Get(hp, k) else Get(init, k) {
      StartState(init, hp, k);
    }
    if |init| > 0 {
      StartState(init, hp, init[0].key);
    } else {
      UpdateDistinct(init, hp);
      StartState(init, hp, []);
    }
  }

  // ---------------------------------------------------------------------
  // The rollout

  /** `n` applications of `f`. */
  function Repeat(f: State -> State, n: nat, s: State): State
  {
    if n == 0 then s else f(Repeat(f, n - 1, s))
  }

  /** The states after each of the `n` steps of a rollout from `s`: the
      first step is `first`, each later one is `step` applied to the state
      before it. */
  function Trajectory(first: State -> State, step: State -> State, n: Positive, s: State): (t: seq<State>)
    ensures |t| == n
    ensures t[0] == first(s)
    ensures forall i :: 0 <= i < n - 1 ==> t[i + 1] == step(t[i])
  {
    if n == 1 then [first(s)]
    else
      var t := Trajectory(first, step, n - 1, s);
      t + [step(t[n - 2])]
  }

  /** The final state of `evaluate`'s loop: the first step once, then
      `step` exactly `n - 1` times. */
  lemma {:induction false} RolloutIsTrajectoryEnd(first: State -> State, step: State -> State, n: Positive, s: State)
    ensures Repeat(step, n - 1, first(s)) == Trajectory(first, step, n, s)[n - 1]
  {
    if n > 1 {
      RolloutIsTrajectoryEnd(first, step, n - 1, s);
    }
  }

  /** `n` steps after one more step are `n + 1` steps. */
  lemma {:induction false} RepeatShift(f: State -> State, n: nat, s: State)
    ensures Repeat(f, n, f(s)) == Repeat(f, n + 1, s)
  {
    if n > 0 {
      RepeatShift(f, n - 1, s);
    }
  }

  /** Without an own `init_step`, a rollout is `n` ordinary steps. */
  lemma RolloutWithoutInitStep(step: State -> State, n: Positive, s: State)
    ensures Repeat(step, n - 1, step(s)) == Repeat(step, n, s)
    ensures Trajectory(step, step, n, s)[n - 1] == Repeat(step, n, s)
  {
    RepeatShift(step, n - 1, s);
    RolloutIsTrajectoryEnd(step, step, n, s);
  }

  // ---------------------------------------------------------------------
  // extract_parameters

  /** `{k: v for k, v in state.items() if isinstance(v, nn.Parameter)}`. */
  function ExtractParameters(state: State): (r: State)
    ensures |r| <= |state|
    ensures forall i :: 0 <= i < |r| ==> r[i] in state && r[i].value.kind == Parameter
    ensures forall i :: 0 <= i < |state| && state[i].value.kind == Parameter ==> state[i] in r
  {
    if state == [] then []
    else
      var rest := ExtractParameters(state[1..]);
      assert forall i :: 1 <= i < |state| ==> state[i] == state[1..][i - 1];
      if state[0].value.kind == Parameter then [state[0]] + rest else rest
  }

  /** The extracted parameters of a dict form a dict. */
  lemma {:induction false} ExtractParametersDistinct(state: State)
    requires DistinctKeys(state)
    ensures DistinctKeys(ExtractParameters(state))
  {
    if state != [] {
      var rest := state[1..];
      var er := ExtractParameters(rest);
      assert DistinctKeys(rest);
      ExtractParametersDistinct(rest);
      if state[0].value.kind == Parameter {
        assert state[0].key !in KeysOf(rest) by {
          forall j | 0 <= j < |rest| ensures KeysOf(rest)[j] != state[0].key {
            assert rest[j] == state[j + 1];
          }
        }
        forall i | 0 <= i < |er| ensures er[i].key != state[0].key {
          assert er[i] in rest;
          var j :| 0 <= j < |rest| && rest[j] == er[i];
          assert KeysOf(rest)[j] == er[i].key;
        }
        var r := ExtractParameters(state);
        assert r[0] == state[0] && r[1..] == er;
      }
    }
  }

  /** Read as a dictionary, the extracted parameters are the Parameter
      entries of the state under the same keys, and no Buffer entry. */
  lemma {:induction false} ExtractParametersGet(state: State, k: Key)
    requires DistinctKeys(state)
    ensures Get(ExtractParameters(state), k) ==
            if Get(state, k).Some? && Get(state, k).value.kind == Parameter then Get(state, k) else None
  {
    if state != [] {
      var rest := state[1..];
      var r := ExtractParameters(state);
      assert DistinctKeys(rest);
      ExtractParametersGet(rest, k);
      if state[0].value.kind == Parameter {
        assert r[0] == state[0] && r[1..] == ExtractParameters(rest);
      } else {
        assert r == ExtractParameters(rest);
      }
      if state[0].key == k {
        assert Get(state, k) == Some(state[0].value);
        assert k !in KeysOf(rest) by {
          forall i | 0 <= i < |rest| ensures KeysOf(rest)[i] != k {
            assert rest[i] == state[i + 1];
          }
        }
      } else {
        assert Get(state, k) == Get(rest, k);
      }
    }
  }

  /** Extracting twice extracts nothing more. */
  lemma {:induction false} ExtractParametersIdempotent(state: State)
    ensures ExtractParameters(ExtractParameters(state)) == ExtractParameters(state)
  {
    if state != [] {
      ExtractParametersIdempotent(state[1..]);
      var rest := ExtractParameters(state[1..]);
      if state[0].value.kind == Parameter {
        assert ([state[0]] + rest)[1..] == rest;
      }
    }
  }

  /** The parameters extracted from a state are accepted as hyperparameters
      of that state, and injecting them gives the state back. */
  lemma ExtractedParametersRoundTrip(state: State)
    requires DistinctKeys(state)
    ensures CheckHyperParameters(state, ExtractParameters(state)).Pass?
    ensures Update(state, ExtractParameters(state)) == state
  {
    var p := ExtractParameters(state);
    forall i | 0 <= i < |p| ensures ValidHyperParameter(state, p[i]) {
      var j :| 0 <= j < |state| && state[j] == p[i];
      GetMember(state, j);
    }
    UpdateWithOwnItems(state, p);
  }

  // ---------------------------------------------------------------------
  // The wrapper object

  class HpoProblemWrapper {
    const iterations: Positive
    const numInstances: Positive
    /** Has `setup` completed (the fields below exist)? */
    var configured: bool
    /** `monitor_keys`, kept inside `_get_monitor_fitness_`. */
    var monitorKeys: Dict<Key, Key>
    /** The monitor's load-and-tell, kept inside `_get_monitor_fitness_`. */
    var tell: Dict<Key, Entry> -> Tensor
    /** `_workflow_step_` and `_workflow_init_step_`. */
    var step: State -> State
    var initStep: State -> State
    /** `init_state`: the batched initial state. */
    var initState: State

    /** Once set up, the initial state is a dictionary, as every Python
        dict is. */
    ghost predicate Valid()
      reads this
    {
      configured ==> DistinctKeys(initState)
    }

    constructor (iterations: int, numInstances: int)
      requires iterations > 0 && numInstances > 0
      ensures this.iterations == iterations && this.numInstances == numInstances
      ensures !configured && Valid()
    {
      this.iterations := iterations;
      this.numInstances := numInstances;
      configured := false;
      monitorKeys := [];
      tell := _ => [];
      step := s => s;
      initStep := s => s;
      initState := [];
    }

    /** `HPOProblemWrapper(iterations, num_instances)`: both counts must be
        positive (iterations is checked first); they are stored as given. */
    static method Create(iterations: int, numInstances: int) returns (r: Result<HpoProblemWrapper, Error>)
      ensures r.Success? <==> iterations > 0 && numInstances > 0
      ensures iterations <= 0 ==> r == Failure(NonPositiveIterations(iterations))
      ensures iterations > 0 && numInstances <= 0 ==> r == Failure(NonPositiveInstances(numInstances))
      ensures r.Success? ==> fresh(r.value) && !r.value.configured && r.value.Valid()
                             && r.value.iterations == iterations && r.value.numInstances == numInstances
    {
      if iterations <= 0 {
        return Failure(NonPositiveIterations(iterations));
      }
      if numInstances <= 0 {
        return Failure(NonPositiveInstances(numInstances));
      }
      var w := new HpoProblemWrapper(iterations, numInstances);
      return Success(w);
    }

    /** `setup(workflow)`: check the monitor, resolve its keys, keep the
        batched step, and choose the first step and the initial state. A
        failed check leaves the wrapper as it was. */
    method Setup(wf: Workflow) returns (o: Outcome<Error>)
      requires Valid()
      requires DistinctKeys(wf.snapshot)
      requires DistinctKeys(wf.step.initState(numInstances))
      requires wf.initStep.Some? ==> DistinctKeys(wf.initStep.value.initState(numInstances))
      modifies this
      ensures Valid()
      ensures o.Pass? <==> wf.monitorIsHpo && |Resolved(wf.snapshot, wf.monitorState)| == |wf.monitorState|
      ensures !wf.monitorIsHpo ==> o == Fail(MonitorNotHpo)
      ensures wf.monitorIsHpo && o.Fail? ==>
        o.error == MonitorUnresolved(|wf.monitorState|, |Resolved(wf.snapshot, wf.monitorState)|)
      ensures o.Fail? ==> unchanged(this)
      ensures o.Pass? ==>
        && configured
        && monitorKeys == Resolved(wf.snapshot, wf.monitorState)
        && tell == wf.tellFitness
        && step == wf.step.step
        && (wf.initStep.None? ==> initStep == wf.step.step && initState == wf.step.initState(numInstances))
        && (wf.initStep.Some? ==>
              initStep == wf.initStep.value.step && initState == wf.initStep.value.initState(numInstances))
    {
      if !wf.monitorIsHpo {
        return Fail(MonitorNotHpo);
      }
      var keys := ResolveMonitorKeys(wf.snapshot, wf.monitorState);
      if |keys| != |wf.monitorState| {
        return Fail(MonitorUnresolved(|wf.monitorState|, |keys|));
      }
      monitorKeys, tell := keys, wf.tellFitness;
      var batchedInit := wf.step.initState(numInstances);
      step := wf.step.step;
      configured := true;
      if wf.initStep.None? {
        initState := batchedInit;
        initStep := step;
        return Pass;
      }
      initState := wf.initStep.value.initState(numInstances);
      initStep := wf.initStep.value.step;
      return Pass;
    }

    /** `evaluate(hyper_parameters)`: validate the hyperparameters, start
        from a copy of the initial state with them injected, take the first
        step once and the ordinary step `iterations - 1` times, and read
        the fitness. The wrapper itself is not changed. */
    method Evaluate(hp: State) returns (r: Result<Tensor, Error>)
      requires Valid()
      ensures !configured ==> r == Failure(NotSetUp)
      ensures configured && CheckHyperParameters(initState, hp).Fail? ==>
        r == Failure(CheckHyperParameters(initState, hp).error)
      ensures configured && CheckHyperParameters(initState, hp).Pass? ==>
        r == MonitorFitness(monitorKeys, tell, Trajectory(initStep, step, iterations, Update(initState, hp))[iterations - 1])
      ensures configured && CheckHyperParameters(initState, hp).Pass? && DistinctKeys(hp) ==>
        var start := Update(initState, hp);
        && DistinctKeys(start) && KeysOf(start) == KeysOf(initState)
        && forall k :: Get(start, k) == if k in KeysOf(hp) then Get(hp, k) else Get(initState, k)
    {
      if !configured {
        return Failure(NotSetUp);
      }
      for i := 0 to |hp|
        invariant CheckHyperParameters(initState, hp[i..]) == CheckHyperParameters(initState, hp)
      {
        var k, v := hp[i].key, hp[i].value;
        assert hp[i..][0] == hp[i] && hp[i..][1..] == hp[i + 1..];
        var stored := Get(initState, k);
        if stored.None? {
          return Failure(MissingHyperParameter(k));
        }
        if stored.value.kind != Parameter || v.kind != Parameter {
          return Failure(NotParameter(k));
        }
      }
      var state := initState;
      state := Update(state, hp);
      ghost var start := state;
      state := initStep(state);
      for n := 1 to iterations
        invariant state == Repeat(step, n - 1, initStep(start))
      {
        state := step(state);
      }
      RolloutIsTrajectoryEnd(initStep, step, iterations, start);
      if DistinctKeys(hp) {
        StartStateAll(initState, hp);
      }
      r := MonitorFitness(monitorKeys, tell, state);
    }
  }
}
