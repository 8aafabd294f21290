/** Flows across several calls of the user service, as the controllers
    drive them: signing up and then logging in, finding the account again
    by its remember token, and completing a password reset. */
module UserScenarios {

  import opened Wrappers
  import opened Errors
  import opened Users
  import opened UserDB
  import opened UserServices

  /** Sign-up followed by log-in with the same address and password: once
      the account is created, the same credentials authenticate it, and the
      account returned is the stored row. */
  method SignUpThenLogIn(svc: UserService, user: User, draw: Draw)
      returns (created: Result<User, Err>, auth: Result<UserRec, Err>)
    requires svc.uv.db.Valid() && TokenSound(svc.uv.crypto, draw) && HashVerifies(svc.uv.crypto)
    modifies user, svc.uv.db
    ensures created.Success? ==> user.id in svc.uv.db.rows && auth == Success(svc.uv.db.rows[user.id])
  {
    var email, password := user.email, user.password;
    CreateSucceeds(user.Rec(), svc.uv.EnvFor(draw));
    created := svc.uv.Create(user, draw);
    auth := svc.Authenticate(email, password);
    if created.Success? {
      NormalizeIdempotent(email);
      var rows := svc.uv.db.rows;
      assert rows[user.id].email == NormalizeEmail(email);
    }
  }

  /** After sign-up, the remember token the user now carries (the cookie's
      value) identifies the account. */
  method SignUpThenRemember(svc: UserService, user: User, draw: Draw)
      returns (created: Result<User, Err>, found: Result<UserRec, Err>)
    requires svc.uv.db.Valid() && TokenSound(svc.uv.crypto, draw)
    modifies user, svc.uv.db
    ensures created.Success? ==> user.id in svc.uv.db.rows && found == Success(svc.uv.db.rows[user.id])
  {
    CreateSucceeds(user.Rec(), svc.uv.EnvFor(draw));
    created := svc.uv.Create(user, draw);
    found := svc.uv.ByRemember(user.remember);
    if created.Success? {
      var rows := svc.uv.db.rows;
      assert rows[user.id].rememberHash == svc.uv.crypto.hmac(svc.uv.hmacKey, user.remember);
    }
  }

  /** Deleting an account is a soft delete: its address stays in the
      table's unique index, so signing up again with it is refused, even
      though the availability check no longer sees the account. */
  method DeleteThenSignUpAgain(svc: UserService, id: nat, user: User, draw: Draw)
      returns (deleted: Option<Err>, created: Result<User, Err>)
    requires svc.uv.db.Valid() && svc.uv.db.fault.None? && TokenSound(svc.uv.crypto, draw)
    requires id in svc.uv.db.rows && svc.uv.db.rows[id].email == NormalizeEmail(user.email)
    modifies user, svc.uv.db
    ensures deleted == None && created.Failure?
  {
    deleted := svc.uv.Delete(id);
    assert id in svc.uv.db.All() && svc.uv.db.All()[id].email == NormalizeEmail(user.email);
    CreateSucceeds(user.Rec(), svc.uv.EnvFor(draw));
    created := svc.uv.Create(user, draw);
  }

  /** A reset token works once: after a successful completion, completing
      again with the same token reports `ErrTokenInvalid`. */
  method ResetTwice(svc: UserService, token: string, pw1: string, pw2: string,
                    now1: int, now2: int, d1: Draw, d2: Draw)
      returns (first: Result<UserRec, Err>, second: Result<UserRec, Err>)
    requires svc.uv.db.Valid() && svc.pwResets.Valid()
    modifies svc.pwResets, svc.uv.db
    ensures first.Success? && old(svc.pwResets.fault).None? ==> second == Failure(ErrTokenInvalid)
  {
    first := svc.CompleteReset(token, pw1, now1, d1);
    second := svc.CompleteReset(token, pw2, now2, d2);
  }

  /** After a successful reset to a non-empty password, that password
      authenticates the account under its stored address. */
  method ResetThenLogIn(svc: UserService, token: string, newPw: string, now: int, draw: Draw)
      returns (reset: Result<UserRec, Err>, auth: Result<UserRec, Err>)
    requires svc.uv.db.Valid() && svc.pwResets.Valid() && HashVerifies(svc.uv.crypto)
    requires newPw != ""
    modifies svc.pwResets, svc.uv.db
    ensures reset.Success? ==> reset.value.id in svc.uv.db.rows && auth == Success(svc.uv.db.rows[reset.value.id])
  {
    ghost var env := svc.uv.EnvFor(draw);
    ghost var pending := ResetCheck(ResetQuery(svc.pwResets.rows, svc.pwResets.fault, svc.pwResets.Key(token)), now);
    ghost var found := if pending.Success? then IdQuery(svc.uv.db.rows, svc.uv.db.fault, pending.value.userID)
                       else Failure(ErrNotFound);
    if found.Success? {
      UpdateSucceedsPassword(found.value.(password := newPw), env);
      UpdateSucceedsEmail(found.value.(password := newPw), env);
    }
    reset := svc.CompleteReset(token, newPw, now, draw);
    if reset.Success? {
      auth := svc.Authenticate(reset.value.email, newPw);
      NormalizeIdempotent(found.value.email);
      var rows := svc.uv.db.rows;
      assert rows[reset.value.id].email == reset.value.email;
    } else {
      auth := Failure(reset.error);   // no log-in is attempted
    }
  }
}
