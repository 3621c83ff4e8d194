/**
 * The exceptions the core raises: the application's `CustomException`
 * hierarchy, the Python built-ins it lets escape, SQLAlchemy's database errors
 * and FastAPI's `HTTPException`; and `Result`, the outcome of an operation
 * that may raise one of them.
 */
module Errors {
  import opened Wrappers

  /** `CustomException` and its three subclasses. */
  datatype CustomKind = Base | OverlappingReservation | NotFoundInDb | NotValidPassword

  /** The two subclasses of `SQLAlchemyError` a commit can raise. */
  datatype DbFailure = IntegrityError | DataError

  datatype Error =
    | Custom(kind: CustomKind, message: string)
      /** A Python built-in exception, by class name: ValueError, TypeError, KeyError. */
    | Builtin(name: string)
      /** `sqlalchemy.exc.SQLAlchemyError`. */
    | Database(failure: DbFailure)
      /** `fastapi.HTTPException(status_code, detail)`. */
    | Http(status: int, detail: string)

  datatype Result<T> = Ok(value: T) | Err(error: Error)

  const BaseMessage := "Произошла ошибка"
  const OverlappingMessage := "Время для записи занято"
  const NotFoundMessage := "Запись не найдена"
  const NotValidPasswordMessage := "Неверный пароль"

  /** The default `message` argument of each constructor. */
  function DefaultMessage(kind: CustomKind): string {
    match kind
    case Base => BaseMessage
    case OverlappingReservation => OverlappingMessage
    case NotFoundInDb => NotFoundMessage
    case NotValidPassword => NotValidPasswordMessage
  }

  /**
   * Constructing an exception of `kind`, passing `message` or (when it is `None`)
   * leaving the default.
   */
  function Raise(kind: CustomKind, message: Option<string>): (e: Error)
    ensures e.Custom? && e.kind == kind
    ensures message.Some? ==> e.message == message.value
    ensures message.None? ==> e.message == DefaultMessage(kind)
  {
    Custom(kind, if message.Some? then message.value else DefaultMessage(kind))
  }

  /** `raise NotFoundInDBError`. */
  function NotFound(): Error {
    Raise(NotFoundInDb, None)
  }

  /** `raise NotValidPassword`. */
  function WrongPassword(): Error {
    Raise(NotValidPassword, None)
  }

  /** `isinstance(e, CustomException)`. */
  predicate IsCustomException(e: Error) {
    e.Custom?
  }

  /** `isinstance(e, SQLAlchemyError)`. */
  predicate IsSqlAlchemyError(e: Error) {
    e.Database?
  }

  const StrPrefix := "CustomException: "

  /** `CustomException.__str__`, inherited unchanged by every subclass. */
  function Str(e: Error): (s: string)
    requires IsCustomException(e)
    ensures |s| == |StrPrefix| + |e.message|
    ensures s[..|StrPrefix|] == StrPrefix && s[|StrPrefix|..] == e.message
  {
    StrPrefix + e.message
  }

  /** `str(e)` loses nothing: two exceptions print alike exactly when their messages agree. */
  lemma StrDeterminesMessage(e1: Error, e2: Error)
    requires IsCustomException(e1) && IsCustomException(e2)
    ensures Str(e1) == Str(e2) <==> e1.message == e2.message
  {
    if Str(e1) == Str(e2) {
      assert e1.message == Str(e1)[|StrPrefix|..];
    }
  }

  /** Every subclass is a `CustomException`, and none is a database error. */
  lemma SubclassesAreCustom(kind: CustomKind, message: Option<string>)
    ensures IsCustomException(Raise(kind, message))
    ensures !IsSqlAlchemyError(Raise(kind, message))
  {
  }

  /** Each class has its own default message. */
  lemma DefaultMessagesDistinct(k1: CustomKind, k2: CustomKind)
    requires k1 != k2
    ensures DefaultMessage(k1) != DefaultMessage(k2)
  {
    assert BaseMessage[0] != NotFoundMessage[0];
    assert |BaseMessage| != |OverlappingMessage| && |BaseMessage| != |NotValidPasswordMessage|;
    assert |NotFoundMessage| != |OverlappingMessage| && |NotFoundMessage| != |NotValidPasswordMessage|;
    assert OverlappingMessage[0] != NotValidPasswordMessage[0];
  }
}
