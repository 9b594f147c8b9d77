/** The retry loop around one transaction
    (apps/control-api/src/organizations/tenant-transaction.ts:175-204). */
module Retry {
  import opened Domain
  import Runner

  /** How the database and the callback ended one attempt. */
  datatype Attempt<T> = Returned(value: T) | Threw(error: Error) | SerializationFailure

  /** Only a serialisation failure is retried; the fourth one becomes a conflict. `attempt(n)` is how
      attempt `n` ends, so every behaviour of the database is one such function. */
  method RunWithRetries<T>(attempt: nat -> Attempt<T>) returns (r: Result<T>, attempts: nat)
    ensures 1 <= attempts <= 4
    ensures forall n | 1 <= n < attempts :: attempt(n).SerializationFailure?
    ensures match attempt(attempts)
            case Returned(v) => r == Ok(v)
            case Threw(e) => r == Err(e)
            case SerializationFailure => r == Err(Conflict) && attempts == 4
  {
    attempts := 1;
    while true
      invariant 1 <= attempts <= Runner.MAX_ATTEMPTS
      invariant forall n | 1 <= n < attempts :: attempt(n).SerializationFailure?
      decreases Runner.MAX_ATTEMPTS - attempts
    {
      match attempt(attempts)
      case Returned(v) => return Ok(v), attempts;
      case Threw(e) => return Err(e), attempts;
      case SerializationFailure =>
        if attempts >= Runner.MAX_ATTEMPTS { return Err(Conflict), attempts; }
        attempts := attempts + 1;
    }
  }
}
