/** The authentication reducer of the client
    (client/src/context/auth/authReducer.js): from the current state object
    and an action to the next state object. On the side it sets or removes
    the `remember_token` cookie; the model returns that write as a value
    next to the state. Reading the token for the cookie throws a `TypeError`
    when the payload has no `data` object, and the model returns that
    exception as a `Failure`. */
module AuthReducer {

  import opened Wrappers
  import opened Js

  /** The actions, by type; `Other` is any type the reducer does not list. */
  datatype Action =
    | UserLoaded(payload: Value)
    | RegisterSuccess(payload: Value)
    | LoginSuccess(payload: Value)
    | RegisterFail(payload: Value)
    | LoginFail(payload: Value)
    | Logout(payload: Value)
    | ClearErrors
    | Other(kind: string, payload: Value)

  /** What the reducer does to the `remember_token` cookie. */
  datatype CookieWrite = SetToken(token: Value) | RemoveToken | NoWrite

  /** A reducer call's effect: the next state and the cookie write. */
  datatype Step = Step(state: Object, cookie: CookieWrite)

  const IsAuthenticated := "isAuthenticated"
  const Loading := "loading"
  const User := "user"
  const Error := "error"

  /** `action.payload.data.remember` can be read: neither the payload nor
      its `data` is `null` or `undefined`. */
  predicate TokenReadable(p: Value)
  {
    !Nullish(p) && !Nullish(Prop(p, "data"))
  }

  /** The state after a log-in or registration failure or a log-out. */
  function SignedOut(s: Object, payload: Value): Object
  {
    s[IsAuthenticated := Bool(false)][Loading := Bool(false)][User := Null][Error := payload]
  }

  /** The state after a successful log-in or registration: the payload's
      fields overwrite the state, then the two flags are forced. */
  function SignedIn(s: Object, payload: Value): Object
  {
    (s + SpreadFields(payload))[IsAuthenticated := Bool(true)][Loading := Bool(false)]
  }

  function Reduce(s: Object, a: Action): (r: Result<Step, JsError>)
    // only the token read can throw
    ensures r.Failure? <==> (a.RegisterSuccess? || a.LoginSuccess?) && !TokenReadable(a.payload)
    ensures r.Failure? ==> r.error == TypeError
    // USER_LOADED: authenticated, done loading, the payload is the user; the rest (error included) is kept
    ensures a.UserLoaded? ==>
              r.Success? && r.value.cookie == NoWrite
              && Has(r.value.state, IsAuthenticated, Bool(true)) && Has(r.value.state, Loading, Bool(false))
              && Has(r.value.state, User, a.payload)
              && AgreeExcept(s, r.value.state, {IsAuthenticated, Loading, User})
    // REGISTER_SUCCESS / LOGIN_SUCCESS: the cookie gets the payload's token; the payload's fields overwrite
    // the state, then the two flags are forced
    ensures (a.RegisterSuccess? || a.LoginSuccess?) && r.Success? ==>
              && r.value.cookie == SetToken(Prop(Prop(a.payload, "data"), "remember"))
              && Has(r.value.state, IsAuthenticated, Bool(true)) && Has(r.value.state, Loading, Bool(false))
              && (forall k :: k != IsAuthenticated && k != Loading && k in SpreadFields(a.payload) ==>
                                Has(r.value.state, k, SpreadFields(a.payload)[k]))
              && (forall k :: k !in SpreadFields(a.payload) ==> k != IsAuthenticated && k != Loading ==>
                                SameAt(s, r.value.state, k))
    // REGISTER_FAIL / LOGIN_FAIL / LOGOUT: the cookie is removed; signed out, no user, the payload is the error
    ensures a.RegisterFail? || a.LoginFail? || a.Logout? ==>
              r.Success? && r.value.cookie == RemoveToken
              && Has(r.value.state, IsAuthenticated, Bool(false)) && Has(r.value.state, Loading, Bool(false))
              && Has(r.value.state, User, Null) && Has(r.value.state, Error, a.payload)
              && AgreeExcept(s, r.value.state, {IsAuthenticated, Loading, User, Error})
    // CLEAR_ERRORS: only the error is reset
    ensures a.ClearErrors? ==>
              r.Success? && r.value.cookie == NoWrite
              && Has(r.value.state, Error, Null) && AgreeExcept(s, r.value.state, {Error})
    // any other action: the state itself
    ensures a.Other? ==> r == Success(Step(s, NoWrite))
  {
    match a
    case UserLoaded(p) => Success(Step(s[IsAuthenticated := Bool(true)][Loading := Bool(false)][User := p], NoWrite))
    case RegisterSuccess(p) =>
      if TokenReadable(p) then Success(Step(SignedIn(s, p), SetToken(Prop(Prop(p, "data"), "remember"))))
      else Failure(TypeError)
    case LoginSuccess(p) =>
      if TokenReadable(p) then Success(Step(SignedIn(s, p), SetToken(Prop(Prop(p, "data"), "remember"))))
      else Failure(TypeError)
    case RegisterFail(p) => Success(Step(SignedOut(s, p), RemoveToken))
    case LoginFail(p) => Success(Step(SignedOut(s, p), RemoveToken))
    case Logout(p) => Success(Step(SignedOut(s, p), RemoveToken))
    case ClearErrors => Success(Step(s[Error := Null], NoWrite))
    case Other(_, _) => Success(Step(s, NoWrite))
  }

  /** Clearing errors twice is clearing them once. */
  lemma ClearErrorsIdempotent(s: Object)
    ensures Reduce(Reduce(s, ClearErrors).value.state, ClearErrors) == Reduce(s, ClearErrors)
  {
    var once := s[Error := Null];
    assert once[Error := Null] == once;
  }

  /** Two sign-outs with the same payload leave the state of one, whatever
      the state was, and a failed log-in followed by a log-out is the same
      as the log-out alone. */
  lemma SignOutIdempotent(s: Object, p: Value)
    ensures Reduce(Reduce(s, Logout(p)).value.state, Logout(p)) == Reduce(s, Logout(p))
    ensures Reduce(Reduce(s, LoginFail(p)).value.state, Logout(p)) == Reduce(s, Logout(p))
  {
    assert SignedOut(SignedOut(s, p), p) == SignedOut(s, p);
  }

  /** A log-in whose response has no `data` object throws before the state
      changes; the reducer's caller sees the exception. */
  lemma LoginWithoutDataThrows(s: Object, fields: map<string, Value>)
    requires "data" !in fields
    ensures Reduce(s, LoginSuccess(Obj(fields))) == Failure(TypeError)
  {
  }
}
