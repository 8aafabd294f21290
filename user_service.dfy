/** The validating layer and the service of models/users.go: `userValidator`
    applies the rules of module Users to a mutable `User` before it reaches
    the table, and `userService` adds authentication and the password-reset
    flow on top. */
module UserServices {

  import opened Wrappers
  import opened Errors
  import opened Users
  import opened UserDB

  /** The rules' environment while the users table holds `rows` with
      standing error `fault`: `emailIsAvail` looks addresses up in it. */
  ghost function TableEnv(crypto: Crypto, pepper: string, hmacKey: string, draw: Draw,
                          rows: map<nat, UserRec>, fault: Option<Err>): Env
  {
    Env(crypto, pepper, hmacKey, draw, e => EmailQuery(rows, fault, e))
  }

  /** A record passed through a rule list keeps its id and names: the rules
      touch only the address and the two secrets. */
  lemma {:induction false} RulesKeepIdentity(u: UserRec, rules: seq<UserRule>, env: Env)
    ensures var v := RunRules(u, rules, env).user;
      v.id == u.id && v.firstName == u.firstName && v.lastName == u.lastName
    decreases |rules|
  {
    if rules != [] {
      var o := Apply(rules[0], u, env);
      if o.err.None? {
        RulesKeepIdentity(o.user, rules[1..], env);
      }
    }
  }

  /** `userValidator`, in front of the users table. */
  class UserValidator {
    const db: UserGorm
    const crypto: Crypto
    /** `userPwPepper` and `hmacSecretKey`, read from the environment at start-up. */
    const pepper: string
    const hmacKey: string

    constructor (db: UserGorm, crypto: Crypto, pepper: string, hmacKey: string)
      ensures this.db == db && this.crypto == crypto && this.pepper == pepper && this.hmacKey == hmacKey
    {
      this.db, this.crypto, this.pepper, this.hmacKey := db, crypto, pepper, hmacKey;
    }

    /** The rules' environment for a call that draws `draw`. */
    ghost function EnvFor(draw: Draw): Env
      reads db
    {
      TableEnv(crypto, pepper, hmacKey, draw, db.rows, db.fault)
    }

    /** `ByID`, passed straight to the table. */
    method ByID(id: nat) returns (r: Result<UserRec, Err>)
      requires db.Valid()
      ensures r == IdQuery(db.rows, db.fault, id)
    {
      r := db.ByID(id);
    }

    /** `ByEmail`: normalise the address, then look it up, so lookups ignore
      case and surrounding white space. */
    method ByEmail(email: string) returns (r: Result<UserRec, Err>)
      requires db.Valid()
      ensures r == EmailQuery(db.rows, db.fault, NormalizeEmail(email))
    {
      r := db.ByEmail(NormalizeEmail(email));
    }

    /** `ByRemember`: hash the token as `hmacRemember` does (an empty token
      leaves the hash empty), then look the hash up. */
    method ByRemember(token: string) returns (r: Result<UserRec, Err>)
      requires db.Valid()
      ensures token != "" ==> r == RememberQuery(db.rows, db.fault, crypto.hmac(hmacKey, token))
      ensures token == "" ==> r == RememberQuery(db.rows, db.fault, "")
    {
      var hash := if token == "" then "" else crypto.hmac(hmacKey, token);
      r := db.ByRemember(hash);
    }

    /** One rule, applied to the user in place. */
    method ApplyRule(user: User, rule: UserRule, draw: Draw) returns (err: Option<Err>)
      requires db.Valid()
      modifies user
      ensures Outcome(user.Rec(), err) == Apply(rule, old(user.Rec()), EnvFor(draw))
    {
      match rule {
        case PasswordRequired =>
          err := if user.password == "" then Some(ErrPasswordRequired) else None;
        case PasswordMinLength =>
          err := if user.password != "" && Utf8Len(user.password) < 8 then Some(ErrPasswordTooShort) else None;
        case BcryptPassword =>
          err := None;
          if user.password != "" {
            var hashed := crypto.bcryptHash(user.password + pepper, draw.salt);
            if hashed.Failure? {
              return Some(hashed.error);
            }
            user.passwordHash := hashed.value;
            user.password := "";
          }
        case PasswordHashRequired =>
          err := if user.passwordHash == "" then Some(ErrPasswordRequired) else None;
        case SetRememberIfUnset =>
          err := None;
          if user.remember == "" {
            if draw.token.Failure? {
              return Some(draw.token.error);
            }
            user.remember := draw.token.value;
          }
        case RememberMinBytes =>
          err := None;
          if user.remember != "" {
            var n := crypto.nBytes(user.remember);
            if n.Failure? {
              return Some(n.error);
            }
            if n.value < 32 {
              return Some(ErrRememberTooShort);
            }
          }
        case HmacRemember =>
          err := None;
          if user.remember != "" {
            user.rememberHash := crypto.hmac(hmacKey, user.remember);
          }
        case RememberHashRequired =>
          err := if user.rememberHash == "" then Some(ErrRememberRequired) else None;
        case NormalizeEmail_ =>
          user.email := NormalizeEmail(user.email);
          err := None;
        case RequireEmail =>
          err := if user.email == "" then Some(ErrEmailRequired) else None;
        case EmailFormat =>
          err := if user.email != "" && !EmailMatches(user.email) then Some(ErrEmailInvalid) else None;
        case EmailIsAvail =>
          var existing := ByEmail(user.email);
          err := EmailAvailability(user.Rec(), existing);
        case IdGreaterThan(n) =>
          err := if user.id <= n then Some(ErrInvalidID) else None;
      }
    }

    /** `runUserValFuncs`: apply the rules in turn and return the first
      error; the user keeps what the rules before it did. */
    method RunUserValFuncs(user: User, rules: seq<UserRule>, draw: Draw) returns (err: Option<Err>)
      requires db.Valid()
      modifies user
      ensures Outcome(user.Rec(), err) == RunRules(old(user.Rec()), rules, EnvFor(draw))
    {
      ghost var env := EnvFor(draw);
      var i := 0;
      while i < |rules|
        invariant 0 <= i <= |rules|
        invariant env == EnvFor(draw)
        invariant RunRules(old(user.Rec()), rules, env) == RunRules(user.Rec(), rules[i..], env)
      {
        assert rules[i..][0] == rules[i] && rules[i..][1..] == rules[i + 1..];
        err := ApplyRule(user, rules[i], draw);
        if err.Some? {
          return;
        }
        i := i + 1;
      }
      return None;
    }

    /** `Create`: run the Create rules, then insert. A rule's error is
      returned with the table untouched, the user keeping what the rules
      before it did; otherwise the table decides. */
    method Create(user: User, draw: Draw) returns (r: Result<User, Err>)
      requires db.Valid()
      modifies user, db
      ensures db.Valid() && db.fault == old(db.fault) && db.gone == old(db.gone)
      ensures var o := RunRules(old(user.Rec()), CreateRules, old(EnvFor(draw)));
        && (o.err.Some? ==> r == Failure(o.err.value) && user.Rec() == o.user && unchanged(db))
        && (o.err.None? && old(db.fault).Some? ==> r == Failure(old(db.fault).value) && user.Rec() == o.user && unchanged(db))
        && (o.err.None? && old(db.fault).None? ==>
              var v := o.user.(id := if o.user.id == 0 then old(db.nextID) else o.user.id);
              && db.nextID == (if o.user.id == 0 then old(db.nextID) + 1 else old(db.nextID))
              && (Clash(old(db.All()), v) ==> r == Failure(UniqueViolation) && user.Rec() == o.user && db.rows == old(db.rows))
              && (!Clash(old(db.All()), v) ==>
                    r == Success(user) && user.Rec() == v && db.rows == old(db.rows)[v.id := Persisted(v)]))
    {
      var err := RunUserValFuncs(user, CreateRules, draw);
      if err.Some? {
        return Failure(err.value);
      }
      err := db.Create(user);
      if err.Some? {
        return Failure(err.value);
      }
      return Success(user);
    }

    /** `Update`: run the Update rules, then save. */
    method Update(user: User, draw: Draw) returns (r: Result<User, Err>)
      requires db.Valid()
      modifies user, db
      ensures db.Valid() && db.fault == old(db.fault) && db.gone == old(db.gone)
      ensures var o := RunRules(old(user.Rec()), UpdateRules, old(EnvFor(draw)));
        && (o.err.Some? ==> r == Failure(o.err.value) && user.Rec() == o.user && unchanged(db))
        && (o.err.None? && old(db.fault).Some? ==> r == Failure(old(db.fault).value) && user.Rec() == o.user && unchanged(db))
        && (o.err.None? && old(db.fault).None? && o.user.id != 0 ==> db.nextID == old(db.nextID))
        && (o.err.None? && old(db.fault).None? && o.user.id != 0 && SaveClash(old(db.rows), old(db.gone), o.user) ==>
              r == Failure(UniqueViolation) && user.Rec() == o.user && db.rows == old(db.rows))
        && (o.err.None? && old(db.fault).None? && o.user.id != 0 && !SaveClash(old(db.rows), old(db.gone), o.user) ==>
              r == Success(user) && user.Rec() == o.user && db.rows == old(db.rows)[o.user.id := Persisted(o.user)])
        && (o.err.None? && old(db.fault).None? && o.user.id == 0 ==>
              var v := o.user.(id := old(db.nextID));
              && db.nextID == old(db.nextID) + 1
              && (Clash(old(db.All()), v) ==> r == Failure(UniqueViolation) && user.Rec() == o.user && db.rows == old(db.rows))
              && (!Clash(old(db.All()), v) ==>
                    r == Success(user) && user.Rec() == v && db.rows == old(db.rows)[v.id := Persisted(v)]))
    {
      var err := RunUserValFuncs(user, UpdateRules, draw);
      if err.Some? {
        return Failure(err.value);
      }
      err := db.Update(user);
      if err.Some? {
        return Failure(err.value);
      }
      return Success(user);
    }

    /** `Delete`: id 0 fails `idGreaterThan(0)` and never reaches the table
      (where it would soft-delete every row). */
    method Delete(id: nat) returns (err: Option<Err>)
      requires db.Valid()
      modifies db
      ensures db.Valid()
      ensures id == 0 ==> err == Some(ErrInvalidID) && unchanged(db)
      ensures id != 0 ==> err == old(db.fault)
      ensures id != 0 ==> db.All() == old(db.All())
      ensures id != 0 && old(db.fault).None? ==>
                && db.rows == old(db.rows) - {id}
                && db.gone == if id in old(db.rows) then old(db.gone)[id := old(db.rows)[id]] else old(db.gone)
    {
      if id <= 0 {
        return Some(ErrInvalidID);
      }
      err := db.Delete(id);
    }
  }

  /** How long a reset token stays valid: three hours, in nanoseconds. */
  const ResetTTL: int := 3 * 60 * 60 * 1_000_000_000

  /** The checks `CompleteReset` makes on the reset row a token opens: an
      unknown token and an expired one are both `ErrTokenInvalid`; a token
      is still good at exactly three hours. */
  function ResetCheck(lookup: Result<PwReset, Err>, now: int): (r: Result<PwReset, Err>)
    ensures lookup == Failure(ErrNotFound) ==> r == Failure(ErrTokenInvalid)
    ensures lookup.Failure? && lookup.error != ErrNotFound ==> r == lookup
    ensures lookup.Success? ==> (r.Success? <==> now - lookup.value.createdAt <= ResetTTL)
    ensures lookup.Success? && r.Failure? ==> r.error == ErrTokenInvalid
    ensures r.Success? ==> r == lookup
  {
    match lookup
    case Failure(e) => if e == ErrNotFound then Failure(ErrTokenInvalid) else lookup
    case Success(pwr) => if now - pwr.createdAt > ResetTTL then Failure(ErrTokenInvalid) else lookup
  }

  /** An expired token cannot be told from an unknown one. */
  lemma ExpiredLooksUnknown(pwr: PwReset, now: int)
    requires now - pwr.createdAt > ResetTTL
    ensures ResetCheck(Success(pwr), now) == ResetCheck(Failure(ErrNotFound), now)
  {
  }

  /** The expiry boundary: at exactly three hours the token passes, one
      nanosecond later it does not. */
  lemma ResetExpiryBoundary(pwr: PwReset)
    ensures ResetCheck(Success(pwr), pwr.createdAt + ResetTTL).Success?
    ensures ResetCheck(Success(pwr), pwr.createdAt + ResetTTL + 1) == Failure(ErrTokenInvalid)
  {
  }

  /** `userService`: the validator (which it embeds) plus the reset table. */
  class UserService {
    const uv: UserValidator
    const pwResets: PwResetDB

    constructor (uv: UserValidator, pwResets: PwResetDB)
      ensures this.uv == uv && this.pwResets == pwResets
    {
      this.uv, this.pwResets := uv, pwResets;
    }

    /** `Authenticate`: find the account by (normalised) address and compare
      the password plus pepper with its hash. A missing account is
      `ErrNotFound`, bcrypt's mismatch is `ErrPasswordIncorrect`, and any
      other error is passed on. */
    method Authenticate(email: string, password: string) returns (r: Result<UserRec, Err>)
      requires uv.db.Valid()
      ensures var found := EmailQuery(uv.db.rows, uv.db.fault, NormalizeEmail(email));
        && (found.Failure? ==> r == Failure(found.error))
        && (found.Success? ==>
              var cmp := uv.crypto.bcryptCompare(found.value.passwordHash, password + uv.pepper);
              && (cmp == None ==> r == found)
              && (cmp == Some(HashMismatch) ==> r == Failure(ErrPasswordIncorrect))
              && (cmp.Some? && cmp != Some(HashMismatch) ==> r == Failure(cmp.value)))
    {
      var found := uv.ByEmail(email);
      if found.Failure? {
        return Failure(found.error);
      }
      var cmp := uv.crypto.bcryptCompare(found.value.passwordHash, password + uv.pepper);
      if cmp.Some? {
        if cmp.value == HashMismatch {
          return Failure(ErrPasswordIncorrect);
        }
        return Failure(cmp.value);
      }
      return found;
    }

    /** `InitiateReset`: find the account by address and create a reset row
      for it; the token (not its hash) is returned, to be e-mailed. */
    method InitiateReset(email: string, draw: Draw, now: int) returns (r: Result<string, Err>)
      requires uv.db.Valid() && pwResets.Valid()
      modifies pwResets
      ensures pwResets.Valid() && pwResets.fault == old(pwResets.fault)
      ensures var found := EmailQuery(uv.db.rows, uv.db.fault, NormalizeEmail(email));
        && (found.Failure? ==> r == Failure(found.error) && unchanged(pwResets))
        && (found.Success? && old(pwResets.fault).None? && draw.token.Success?
            && pwResets.Key(draw.token.value) !in old(pwResets.rows) ==>
              && r == Success(draw.token.value)
              && pwResets.rows == old(pwResets.rows)[pwResets.Key(draw.token.value) :=
                                   PwReset(old(pwResets.nextID), found.value.id, pwResets.Key(draw.token.value), now)]
              && pwResets.nextID == old(pwResets.nextID) + 1)
        && (found.Success? && old(pwResets.fault).None? && draw.token.Success?
            && pwResets.Key(draw.token.value) in old(pwResets.rows) ==>
              r == Failure(UniqueViolation) && unchanged(pwResets))
        && (found.Success? && old(pwResets.fault).Some? ==> r == Failure(old(pwResets.fault).value) && unchanged(pwResets))
        && (found.Success? && old(pwResets.fault).None? && draw.token.Failure? ==>
              r == Failure(draw.token.error) && unchanged(pwResets))
    {
      var found := uv.ByEmail(email);
      if found.Failure? {
        return Failure(found.error);
      }
      r := pwResets.Create(found.value.id, draw, now);
    }

    /** `CompleteReset`: the token must open a reset row no older than three
      hours; its account is loaded, given the new password and saved
      through the Update rules; only then is the reset row deleted (an error
      deleting it is ignored), so the token cannot be used twice. */
    method CompleteReset(token: string, newPw: string, now: int, draw: Draw) returns (r: Result<UserRec, Err>)
      requires uv.db.Valid() && pwResets.Valid()
      modifies pwResets, uv.db
      ensures uv.db.Valid() && pwResets.Valid()
      ensures uv.db.fault == old(uv.db.fault) && pwResets.fault == old(pwResets.fault)
      ensures uv.db.gone == old(uv.db.gone)
      ensures var c := ResetCheck(ResetQuery(old(pwResets.rows), old(pwResets.fault), pwResets.Key(token)), now);
        && (c.Failure? ==> r == Failure(c.error) && unchanged(pwResets) && unchanged(uv.db))
        && (c.Success? ==>
              var found := IdQuery(old(uv.db.rows), old(uv.db.fault), c.value.userID);
              && (found.Failure? ==> r == Failure(found.error) && unchanged(pwResets) && unchanged(uv.db))
              && (found.Success? ==>
                    var o := RunRules(found.value.(password := newPw), UpdateRules, old(uv.EnvFor(draw)));
                    && (o.err.Some? ==> r == Failure(o.err.value) && unchanged(pwResets) && unchanged(uv.db))
                    && (o.err.None? && SaveClash(old(uv.db.rows), old(uv.db.gone), o.user) ==>
                          r == Failure(UniqueViolation) && unchanged(pwResets) && uv.db.rows == old(uv.db.rows))
                    && (o.err.None? && !SaveClash(old(uv.db.rows), old(uv.db.gone), o.user) ==>
                          && r == Success(o.user)
                          && uv.db.rows == old(uv.db.rows)[o.user.id := Persisted(o.user)]
                          && pwResets.rows == (map h | h in old(pwResets.rows) && old(pwResets.rows)[h].id != c.value.id
                                                  :: old(pwResets.rows)[h])
                          && pwResets.Key(token) !in pwResets.rows)))
    {
      var lookup := pwResets.ByToken(token);
      var check := ResetCheck(lookup, now);
      if check.Failure? {
        return Failure(check.error);
      }
      var pwr := check.value;
      var found := uv.ByID(pwr.userID);
      if found.Failure? {
        return Failure(found.error);
      }
      ghost var env := uv.EnvFor(draw);
      var user := new User(found.value);
      user.password := newPw;
      RulesKeepIdentity(user.Rec(), UpdateRules, env);
      var updated := uv.Update(user, draw);
      if updated.Failure? {
        return Failure(updated.error);
      }
      var _ := pwResets.Delete(pwr.id);
      return Success(user.Rec());
    }
  }
}
