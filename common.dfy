/** Shared vocabulary of the HPO model: failure-compatible wrappers, the
    errors the Python code raises, and the extended integers that stand for
    fitness values (a finite value or +infinity). */
module Common {

  datatype Option<+T> = None | Some(value: T)

  datatype Result<+T, +E> = Success(value: T) | Failure(error: E) {
    predicate IsFailure() { Failure? }
    function PropagateFailure<U>(): Result<U, E>
      requires Failure?
    {
      Failure(error)
    }
    function Extract(): T
      requires Success?
    {
      value
    }
  }

  datatype Outcome<+E> = Pass | Fail(error: E)

  /** A state-dictionary key: the dotted attribute path of a tensor. */
  type Key = string

  /** One constructor per `assert` (and per implicit Python exception) of the
      modelled code; the payload is what the assertion message reports. */
  datatype Error =
    | NonPositiveIterations(iterations: int)        // HPOProblemWrapper.__init__
    | NonPositiveInstances(numInstances: int)       // HPOProblemWrapper.__init__
    | UnsupportedIndicator(capitalized: string)     // HPOFitnessMonitor.__init__
    | MonitorNotHpo                                 // setup: monitor is not an HPOMonitor
    | MonitorUnresolved(expected: nat, got: nat)    // setup: key count mismatch
    | MissingHyperParameter(key: Key)               // evaluate: key not in init_state
    | NotParameter(key: Key)                        // evaluate: stored or supplied value is a buffer
    | MissingStateKey(key: Key)                     // get_monitor_fitness: KeyError on x[k]
    | EmptyReduction                                // torch.min of an empty 1-D tensor
    | NotSetUp                                      // attribute read before setup (AttributeError)

  /** A fitness value: an integer or +infinity (torch.inf). */
  datatype Scalar = Fin(n: int) | PosInf

  /** The total order on scalars; +infinity is the top element. */
  predicate Le(a: Scalar, b: Scalar) {
    match (a, b)
    case (_, PosInf) => true
    case (PosInf, Fin(_)) => false
    case (Fin(x), Fin(y)) => x <= y
  }

  /** torch.min of two scalar tensors. */
  function Min(a: Scalar, b: Scalar): (m: Scalar)
    ensures Le(m, a) && Le(m, b)
    ensures m == a || m == b
  {
    if Le(a, b) then a else b
  }

  lemma LeTotalOrder(a: Scalar, b: Scalar, c: Scalar)
    ensures Le(a, a)
    ensures Le(a, b) || Le(b, a)
    ensures Le(a, b) && Le(b, a) ==> a == b
    ensures Le(a, b) && Le(b, c) ==> Le(a, c)
  {
  }

  /** A Python tensor is here the sequence of its elements; Positive is the
      type of the two counts the wrapper's constructor accepts. */
  type Tensor = seq<Scalar>
  type Positive = n: int | n > 0 witness 1
}
