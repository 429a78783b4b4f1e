/** retry_on_exception: a bounded retry of one exception type. */
module Retry {
  import opened Wrappers

  /** How one call of the wrapped function ends. */
  datatype Outcome<R, E> = Returned(value: R) | Matching(error: E) | OtherError(error: E)

  /** How the decorated call ends. */
  datatype Result<R, E> = Value(value: R) | Raised(error: E)

  /** The wrapper's loop; `outcome(i)` is how the i-th call would end. The result is that of the last
      call made, the calls before it all raised the retried exception, and if that one did so too, all
      attempts are used up and the factory, if there is one, has replaced its exception. */
  method RetryOnException<R, E>(outcome: nat -> Outcome<R, E>, attempts: nat, backoffSeconds: seq<real>,
                                onExhausted: Option<E -> E>)
    returns (result: Result<R, E>, calls: nat, slept: seq<real>)
    requires 0 < attempts && |backoffSeconds| < attempts
    ensures 1 <= calls <= attempts
    ensures forall i: nat :: i < calls - 1 ==> outcome(i).Matching?
    ensures match outcome(calls - 1)
            case Returned(v) => result == Value(v)
            case OtherError(e) => result == Raised(e)
            case Matching(e) =>
                calls == attempts && result == Raised(if onExhausted.Some? then onExhausted.value(e) else e)
    ensures slept == backoffSeconds[..if calls - 1 < |backoffSeconds| then calls - 1 else |backoffSeconds|]
  {
    var attempt := 0;
    slept := [];
    while true
      invariant 0 <= attempt < attempts
      invariant forall i: nat :: i < attempt ==> outcome(i).Matching?
      invariant slept == backoffSeconds[..if attempt < |backoffSeconds| then attempt else |backoffSeconds|]
      decreases attempts - attempt
    {
      match outcome(attempt) {
        case Returned(v) => return Value(v), attempt + 1, slept;
        case OtherError(e) => return Raised(e), attempt + 1, slept;
        case Matching(e) =>
          attempt := attempt + 1;
          if attempt == attempts {
            return Raised(if onExhausted.Some? then onExhausted.value(e) else e), attempt, slept;
          }
      }
      if attempt <= |backoffSeconds| { slept := slept + [backoffSeconds[attempt - 1]]; }
    }
  }
}
