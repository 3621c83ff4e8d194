/**
 * The `handle_db_errors` decorator put on every repository call, and the
 * database session it rolls back.
 */
module DbErrors {
  import opened Errors

  /**
   * An `AsyncSession`, as far as the core observes it: how many times it was
   * rolled back, and whether it was closed.
   */
  class Session {
    var rollbacks: nat
    var open: bool

    constructor ()
      ensures rollbacks == 0 && open
    {
      rollbacks := 0;
      open := true;
    }

    method Rollback()
      modifies this
      ensures rollbacks == old(rollbacks) + 1 && open == old(open)
    {
      rollbacks := rollbacks + 1;
    }

    method Close()
      modifies this
      ensures !open && rollbacks == old(rollbacks)
    {
      open := false;
    }
  }

  /** What the decorator does with the wrapped call's outcome. */
  datatype Handled<T> = Handled(result: Result<T>, rollsBack: bool)

  /**
   * `handle_db_errors` applied to a call that ended with `r`: a value is returned
   * as it is; a `SQLAlchemyError` is logged, the session is rolled back and the
   * error re-raised; any other exception is logged and re-raised.
   */
  function HandleDbErrors<T>(r: Result<T>): (h: Handled<T>)
    ensures h.result == r
    ensures h.rollsBack <==> r.Err? && IsSqlAlchemyError(r.error)
  {
    match r
    case Ok(_) => Handled(r, false)
    case Err(e) => if IsSqlAlchemyError(e) then Handled(r, true) else Handled(r, false)
  }

  /** The decorator never swallows an exception and never invents one. */
  lemma NeverSwallows<T>(r: Result<T>)
    ensures HandleDbErrors(r).result.Err? <==> r.Err?
    ensures r.Err? ==> HandleDbErrors(r).result.error == r.error
  {
  }

  /** The rollback-and-reraise path, as a step on the receiver's session. */
  method Finish<T>(session: Session, r: Result<T>) returns (out: Result<T>)
    modifies session
    ensures out == r
    ensures session.rollbacks == old(session.rollbacks) + (if HandleDbErrors(r).rollsBack then 1 else 0)
    ensures session.open == old(session.open)
  {
    var h := HandleDbErrors(r);
    if h.rollsBack {
      session.Rollback();
    }
    out := h.result;
  }
}
