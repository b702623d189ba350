/** The HPO fitness monitor: a one-field state machine that keeps the best
    (smallest) single-objective fitness reported to it. */
module HpoMonitor {
  import opened Common

  /** A fitness tensor handed to `pre_tell`: its rank and its elements. A
      single-objective population fitness has rank 1. */
  datatype Fitness = Fitness(ndim: nat, values: Tensor)

  // ---------------------------------------------------------------------
  // The indicator check of the constructor

  /** Python's `str.upper` and `str.lower` on one character (ASCII letters;
      every other character is left as it is). */
  function ToUpper(c: char): (u: char)
    ensures 'a' <= c <= 'z' ==> 'A' <= u <= 'Z'
    ensures !('a' <= c <= 'z') ==> u == c
  {
    if 'a' <= c <= 'z' then (c as int - 32) as char else c
  }

  function ToLower(c: char): (l: char)
    ensures !('A' <= l <= 'Z')
    ensures !('A' <= c <= 'Z') ==> l == c
  {
    if 'A' <= c <= 'Z' then (c as int + 32) as char else c
  }

  /** `s.capitalize()`: the first character upper-cased, every later one
      lower-cased. */
  function Capitalize(s: string): (r: string)
    ensures |r| == |s|
    ensures |s| > 0 ==> r[0] == ToUpper(s[0])
    ensures forall i :: 1 <= i < |s| ==> r[i] == ToLower(s[i]) && !('A' <= r[i] <= 'Z')
  {
    if s == [] then []
    else [ToUpper(s[0])] + seq(|s| - 1, i requires 0 <= i < |s| - 1 => ToLower(s[i + 1]))
  }

  /** The indicator names the constructor's membership test compares with. */
  const SupportedIndicators: seq<string> := ["IGD", "HV"]

  /** No string capitalizes to a supported indicator name: both names carry
      an upper-case letter after their first character, and `capitalize`
      lower-cases every such position. */
  lemma CapitalizedNeverSupported(s: string)
    ensures Capitalize(s) !in SupportedIndicators
  {
    var c := Capitalize(s);
    if |s| == 3 {
      assert c[1] != "IGD"[1];
    }
    if |s| == 2 {
      assert c[1] != "HV"[1];
    }
  }

  /** The constructor's validation of `multi_obj_indicator`, as written: a
      string is capitalized and must then be "IGD" or "HV". Since no
      capitalized string is either, every string is refused and only the
      absent indicator is accepted. */
  function CheckIndicator(indicator: Option<string>): (r: Result<Option<string>, Error>)
    ensures r.Success? <==> indicator.None?
    ensures r.Success? ==> r.value == None
    ensures indicator.Some? ==> r == Failure(UnsupportedIndicator(Capitalize(indicator.value)))
  {
    match indicator
    case None => Success(None)
    case Some(s) =>
      var c := Capitalize(s);
      CapitalizedNeverSupported(s);
      if c in SupportedIndicators then Success(Some(c)) else Failure(UnsupportedIndicator(c))
  }

  // ---------------------------------------------------------------------
  // The running minimum

  /** `torch.min` of a non-empty rank-1 tensor: an element that is no
      larger than any element. */
  function MinOf(v: Tensor): (m: Scalar)
    requires |v| > 0
    ensures m in v
    ensures forall i :: 0 <= i < |v| ==> Le(m, v[i])
  {
    if |v| == 1 then v[0]
    else
      var rest := MinOf(v[1..]);
      assert forall i :: 1 <= i < |v| ==> v[i] == v[1..][i - 1];
      Min(v[0], rest)
  }

  /** One `pre_tell` on the value of `best_fitness` (None while the field
      does not exist yet, i.e. before `setup`). A rank-1 fitness folds into
      the running minimum; `torch.min(fitness)` is evaluated first, so an
      empty vector fails before the field is read; any other rank is
      ignored. */
  function Tell(best: Option<Scalar>, f: Fitness): (r: Result<Option<Scalar>, Error>)
    ensures f.ndim != 1 ==> r == Success(best)
    ensures r.Failure? <==> f.ndim == 1 && (f.values == [] || best.None?)
    ensures r.Failure? ==> r.error == if f.values == [] then EmptyReduction else NotSetUp
    ensures r.Success? && f.ndim == 1 ==>
      && best.Some? && r.value.Some?
      && Le(r.value.value, best.value)
      && (forall i :: 0 <= i < |f.values| ==> Le(r.value.value, f.values[i]))
      && (r.value.value == best.value || r.value.value in f.values)
  {
    if f.ndim != 1 then Success(best)
    else if f.values == [] then Failure(EmptyReduction)
    else if best.None? then Failure(NotSetUp)
    else Success(Some(Min(MinOf(f.values), best.value)))
  }

  /** A sequence of `pre_tell` calls; the first failure stops it. */
  function TellAll(best: Option<Scalar>, fs: seq<Fitness>): (r: Result<Option<Scalar>, Error>)
    ensures best.Some? && r.Success? ==> r.value.Some?
    decreases |fs|
  {
    if fs == [] then Success(best)
    else
      match Tell(best, fs[0])
      case Failure(e) => Failure(e)
      case Success(b) => TellAll(b, fs[1..])
  }

  /** Does element `j` of the `i`-th reported fitness count for the
      single-objective minimum? */
  ghost predicate Reported(fs: seq<Fitness>, i: int, j: int) {
    0 <= i < |fs| && fs[i].ndim == 1 && 0 <= j < |fs[i].values|
  }

  /** After `setup`, a run of `pre_tell` calls fails exactly when one of
      them hands over an empty rank-1 vector. */
  lemma {:induction false} TellAllFailsOnlyOnEmpty(b: Scalar, fs: seq<Fitness>)
    ensures TellAll(Some(b), fs).Failure? <==>
            exists i :: 0 <= i < |fs| && fs[i].ndim == 1 && fs[i].values == []
    ensures TellAll(Some(b), fs).Failure? ==> TellAll(Some(b), fs).error == EmptyReduction
    decreases |fs|
  {
    if fs != [] {
      var r := Tell(Some(b), fs[0]);
      if r.Success? {
        TellAllFailsOnlyOnEmpty(r.value.value, fs[1..]);
        assert forall i :: 1 <= i < |fs| ==> fs[i] == fs[1..][i - 1];
      }
    }
  }

  /** The best fitness is a running minimum: it never increases, it is no
      larger than any element of any rank-1 fitness reported, and it is the
      starting value or one of those elements. */
  lemma {:induction false} TellAllIsRunningMin(b: Scalar, fs: seq<Fitness>)
    requires TellAll(Some(b), fs).Success?
    ensures TellAll(Some(b), fs).value.Some?
    ensures Le(TellAll(Some(b), fs).value.value, b)
    ensures forall i, j :: Reported(fs, i, j) ==> Le(TellAll(Some(b), fs).value.value, fs[i].values[j])
    ensures var m := TellAll(Some(b), fs).value.value;
            m == b || exists i, j :: Reported(fs, i, j) && m == fs[i].values[j]
    decreases |fs|
  {
    if fs != [] {
      var b' := Tell(Some(b), fs[0]).value.value;
      var m := TellAll(Some(b), fs).value.value;
      TellAllIsRunningMin(b', fs[1..]);
      assert Le(m, b') && Le(b', b);
      LeTotalOrder(m, b', b);
      forall i, j | Reported(fs, i, j) ensures Le(m, fs[i].values[j]) {
        if i == 0 {
          LeTotalOrder(m, b', fs[0].values[j]);
        } else {
          assert Reported(fs[1..], i - 1, j);
        }
      }
      if m != b {
        if m == b' {
          if fs[0].ndim == 1 {
            var j :| 0 <= j < |fs[0].values| && fs[0].values[j] == m;
            assert Reported(fs, 0, j);
          }
        } else {
          var i, j :| Reported(fs[1..], i, j) && m == fs[1..][i].values[j];
          assert Reported(fs, i + 1, j);
        }
      }
    }
  }

  /** A finite fitness, once reported, keeps the best fitness finite. */
  lemma TellAllFinite(b: Scalar, fs: seq<Fitness>, i: int, j: int)
    requires TellAll(Some(b), fs).Success?
    requires Reported(fs, i, j) && fs[i].values[j].Fin?
    ensures TellAll(Some(b), fs).value.value.Fin?
  {
    TellAllIsRunningMin(b, fs);
  }

  // ---------------------------------------------------------------------
  // The monitor object

  class HpoFitnessMonitor {
    /** `multi_obj_indicator` after validation. */
    var multiObjIndicator: Option<string>
    /** `best_fitness`; None until `setup` creates the buffer. */
    var bestFitness: Option<Scalar>

    constructor (indicator: Option<string>)
      requires CheckIndicator(indicator).Success?
      ensures multiObjIndicator == CheckIndicator(indicator).value
      ensures bestFitness == None
    {
      multiObjIndicator := CheckIndicator(indicator).value;
      bestFitness := None;
    }

    /** `HPOFitnessMonitor(multi_obj_indicator)`: fails on every indicator
        string, succeeds without one. */
    static method Create(indicator: Option<string>) returns (r: Result<HpoFitnessMonitor, Error>)
      ensures r.Success? <==> indicator.None?
      ensures r.Failure? ==> r.error == UnsupportedIndicator(Capitalize(indicator.value))
      ensures r.Success? ==> fresh(r.value) && r.value.multiObjIndicator == None && r.value.bestFitness == None
    {
      var checked := CheckIndicator(indicator);
      if checked.Failure? {
        return Failure(checked.error);
      }
      var m := new HpoFitnessMonitor(indicator);
      return Success(m);
    }

    /** `setup`: the best fitness starts at +infinity. */
    method Setup()
      modifies this`bestFitness
      ensures bestFitness == Some(PosInf)
    {
      bestFitness := Some(PosInf);
    }

    /** `pre_tell(fitness)`. On a rank-1 fitness the best fitness becomes
        the smaller of its old value and the fitness' minimum; any other
        rank leaves it alone; a raised error leaves it alone too. */
    method PreTell(fitness: Fitness) returns (o: Outcome<Error>)
      modifies this`bestFitness
      ensures o.Pass? <==> Tell(old(bestFitness), fitness).Success?
      ensures o.Pass? ==> bestFitness == Tell(old(bestFitness), fitness).value
      ensures o.Fail? ==> o.error == Tell(old(bestFitness), fitness).error && bestFitness == old(bestFitness)
      ensures o.Pass? && fitness.ndim == 1 ==>
        && bestFitness.Some? && Le(bestFitness.value, old(bestFitness).value)
        && forall i :: 0 <= i < |fitness.values| ==> Le(bestFitness.value, fitness.values[i])
      ensures fitness.ndim != 1 ==> o.Pass? && bestFitness == old(bestFitness)
    {
      if fitness.ndim == 1 {
        if fitness.values == [] {
          return Fail(EmptyReduction);
        }
        var m := MinOf(fitness.values);
        if bestFitness.None? {
          return Fail(NotSetUp);
        }
        bestFitness := Some(Min(m, bestFitness.value));
      }
      return Pass;
    }

    /** `tell_fitness()`: reads the best fitness; before `setup` the field
        does not exist. */
    function TellFitness(): (r: Result<Scalar, Error>)
      reads this
      ensures r.Success? <==> bestFitness.Some?
      ensures r.Success? ==> bestFitness == Some(r.value)
      ensures r.Failure? ==> r.error == NotSetUp
    {
      if bestFitness.None? then Failure(NotSetUp) else Success(bestFitness.value)
    }
  }
}
