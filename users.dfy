/** The account record and its validation/transform rules (models/users.go):
    each rule of `userValidator` as a step on a user record, the fail-fast
    runner `runUserValFuncs` as a fold over a rule list, the `Create` and
    `Update` rule lists, and what a successful run guarantees. The imperative
    layer that applies these steps to a mutable user lives in UserDB and
    UserServices. */
module Users {

  import opened Wrappers
  import opened Errors

  /** The fields of `User` that the rules and the table work with. `password`
      and `remember` are the transient raw secrets; the two hashes are what
      the table keeps. */
  datatype UserRec = UserRec(id: nat, firstName: string, lastName: string, email: string,
                             password: string, passwordHash: string,
                             remember: string, rememberHash: string)

  /** The foreign primitives, as functions:
      bcryptHash(plaintext, salt): `bcrypt.GenerateFromPassword`, with its
        random salt made an argument;
      bcryptCompare(hash, plaintext): `bcrypt.CompareHashAndPassword`,
        `None` on a match;
      hmac(key, message): `hash.HMAC.Hash`;
      nBytes(token): `rand.NBytes`, the byte count of a decoded token. */
  datatype Crypto = Crypto(
    bcryptHash: (string, string) -> Result<string, Err>,
    bcryptCompare: (string, string) -> Option<Err>,
    hmac: (string, string) -> string,
    nBytes: string -> Result<nat, Err>)

  /** What the random source yields during one call: the bcrypt salt and the
      outcome of `rand.RememberToken` (also used for reset tokens). */
  datatype Draw = Draw(salt: string, token: Result<string, Err>)

  /** The assumption made about bcrypt: a hash it produced verifies against
      the plaintext it was produced from. */
  ghost predicate HashVerifies(c: Crypto)
  {
    forall pt, salt :: c.bcryptHash(pt, salt).Success? ==> c.bcryptCompare(c.bcryptHash(pt, salt).value, pt) == None
  }

  /** The assumption made about `rand.RememberToken`: a token it returns is
      non-empty and decodes to 32 bytes. */
  predicate TokenSound(c: Crypto, d: Draw)
  {
    d.token.Success? ==> d.token.value != "" && c.nBytes(d.token.value) == Success(32)
  }

  /** Everything a rule may consult besides the record: the primitives, the
      pepper appended to passwords, the HMAC key, this call's random draw, and
      the table's lookup by (already normalised) e-mail. */
  datatype Env = Env(crypto: Crypto, pepper: string, hmacKey: string, draw: Draw,
                     byEmail: string -> Result<UserRec, Err>)

  // ---------------------------------------------------------------------------
  // Strings as Go sees them

  /** The number of bytes `c` takes in UTF-8. */
  function Utf8Width(c: char): nat
  {
    if c as int < 0x80 then 1 else if c as int < 0x800 then 2 else if c as int < 0x10000 then 3 else 4
  }

  /** `len(s)` in Go: the UTF-8 byte length. */
  function Utf8Len(s: string): (n: nat)
    ensures n >= |s|
  {
    if s == [] then 0 else Utf8Width(s[0]) + Utf8Len(s[1..])
  }

  /** `unicode.IsSpace`. */
  predicate IsSpace(c: char)
  {
    var n := c as int;
    n == 0x20 || 0x09 <= n <= 0x0D || n == 0x85 || n == 0xA0 || n == 0x1680 || 0x2000 <= n <= 0x200A
    || n == 0x2028 || n == 0x2029 || n == 0x202F || n == 0x205F || n == 0x3000
  }

  function LowerChar(c: char): char
  {
    if 'A' <= c <= 'Z' then (c as int + 32) as char else c
  }

  /** `strings.ToLower`, for ASCII letters. */
  function ToLower(s: string): (r: string)
    ensures |r| == |s|
  {
    seq(|s|, i requires 0 <= i < |s| => LowerChar(s[i]))
  }

  function TrimLeft(s: string): string
  {
    if s != [] && IsSpace(s[0]) then TrimLeft(s[1..]) else s
  }

  function TrimRight(s: string): string
  {
    if s != [] && IsSpace(s[|s| - 1]) then TrimRight(s[..|s| - 1]) else s
  }

  /** `strings.TrimSpace`. */
  function TrimSpace(s: string): string
  {
    TrimRight(TrimLeft(s))
  }

  /** The `normalizeEmail` rule's transformation: lower-case, then trim. */
  function NormalizeEmail(e: string): string
  {
    TrimSpace(ToLower(e))
  }

  lemma {:induction false} TrimLeftSlice(s: string)
    ensures exists a :: 0 <= a <= |s| && TrimLeft(s) == s[a..]
    ensures TrimLeft(s) == [] || !IsSpace(TrimLeft(s)[0])
  {
    if s != [] && IsSpace(s[0]) {
      TrimLeftSlice(s[1..]);
      var a :| 0 <= a <= |s[1..]| && TrimLeft(s[1..]) == s[1..][a..];
      assert TrimLeft(s) == s[a + 1..];
    } else {
      assert TrimLeft(s) == s[0..];
    }
  }

  lemma {:induction false} TrimRightSlice(s: string)
    ensures exists b :: 0 <= b <= |s| && TrimRight(s) == s[..b]
    ensures TrimRight(s) == [] || !IsSpace(TrimRight(s)[|TrimRight(s)| - 1])
    ensures s != [] && !IsSpace(s[0]) ==> TrimRight(s) != [] && TrimRight(s)[0] == s[0]
  {
    if s != [] && IsSpace(s[|s| - 1]) {
      TrimRightSlice(s[..|s| - 1]);
      var b :| 0 <= b <= |s| - 1 && TrimRight(s[..|s| - 1]) == s[..|s| - 1][..b];
      assert TrimRight(s) == s[..b];
    } else {
      assert TrimRight(s) == s[..|s|];
    }
  }

  /** The trimmed string is a slice of the original. */
  lemma TrimSpaceSlice(s: string)
    ensures exists a, b :: 0 <= a <= b <= |s| && TrimSpace(s) == s[a..b]
  {
    var t := TrimLeft(s);
    TrimLeftSlice(s);
    var a :| 0 <= a <= |s| && t == s[a..];
    TrimRightSlice(t);
    var b :| 0 <= b <= |t| && TrimRight(t) == t[..b];
    assert t[..b] == s[a..a + b];
  }

  /** The trimmed string has no white space at either end. */
  lemma TrimSpaceEnds(s: string)
    ensures TrimSpace(s) != [] ==> !IsSpace(TrimSpace(s)[0]) && !IsSpace(TrimSpace(s)[|TrimSpace(s)| - 1])
  {
    var t := TrimLeft(s);
    TrimLeftSlice(s);
    TrimRightSlice(t);
  }

  /** The trimmed string is a slice with no white space at either end. */
  lemma TrimSpaceShape(s: string)
    ensures exists a, b :: 0 <= a <= b <= |s| && TrimSpace(s) == s[a..b]
    ensures TrimSpace(s) != [] ==> !IsSpace(TrimSpace(s)[0]) && !IsSpace(TrimSpace(s)[|TrimSpace(s)| - 1])
  {
    TrimSpaceSlice(s);
    TrimSpaceEnds(s);
  }

  /** Trimming a string with no white space at either end changes nothing. */
  lemma TrimmedIsFixed(s: string)
    requires s == [] || (!IsSpace(s[0]) && !IsSpace(s[|s| - 1]))
    ensures TrimSpace(s) == s
  {
  }

  /** Lower-casing a slice of a lower-case string changes nothing. */
  lemma LowerSliceIsFixed(s: string, a: nat, b: nat)
    requires a <= b <= |s| && ToLower(s) == s
    ensures ToLower(s[a..b]) == s[a..b]
  {
    forall i | 0 <= i < b - a
      ensures ToLower(s[a..b])[i] == s[a..b][i]
    {
      assert s[a..b][i] == s[a + i];
      assert ToLower(s)[a + i] == s[a + i];
    }
  }

  /** `normalizeEmail` is idempotent: a normalised address is its own
      normal form. */
  lemma NormalizeIdempotent(e: string)
    ensures NormalizeEmail(NormalizeEmail(e)) == NormalizeEmail(e)
  {
    var l := ToLower(e);
    assert ToLower(l) == l;
    var n := TrimSpace(l);
    TrimSpaceShape(l);
    var a, b :| 0 <= a <= b <= |l| && n == l[a..b];
    LowerSliceIsFixed(l, a, b);
    TrimmedIsFixed(n);
  }

  /** An address made only of white space normalises to the empty string. */
  lemma {:induction false} BlankNormalizesToEmpty(e: string)
    requires forall i :: 0 <= i < |e| ==> IsSpace(e[i])
    ensures NormalizeEmail(e) == ""
  {
    var l := ToLower(e);
    assert forall i :: 0 <= i < |l| ==> IsSpace(l[i]);
    TrimSpaceShape(l);
  }

  /** The pattern `^[a-z0-9._%+\-]+@[a-z0-9.\-]+\.[a-z]{2,16}$`: a non-empty
      local part, `@`, a non-empty domain part, a dot, and 2 to 16 lower-case
      letters up to the end. */
  predicate LocalChar(c: char)
  {
    'a' <= c <= 'z' || '0' <= c <= '9' || c == '.' || c == '_' || c == '%' || c == '+' || c == '-'
  }

  predicate DomainChar(c: char)
  {
    'a' <= c <= 'z' || '0' <= c <= '9' || c == '.' || c == '-'
  }

  /** `s` read as local part `s[..i]`, `@`, domain `s[i+1..j]`, `.` and a
      top-level label `s[j+1..]` of 2 to 16 lower-case letters. */
  predicate EmailSplit(s: string, i: int, j: int)
  {
    && 0 < i && i + 1 < j < |s|
    && s[i] == '@' && s[j] == '.'
    && (forall k | 0 <= k < i :: LocalChar(s[k]))
    && (forall k | i < k < j :: DomainChar(s[k]))
    && 2 <= |s| - j - 1 <= 16
    && (forall k | j < k < |s| :: 'a' <= s[k] <= 'z')
  }

  predicate EmailMatches(s: string)
  {
    exists i, j | 0 < i < |s| && 0 < j < |s| :: EmailSplit(s, i, j)
  }

  // ---------------------------------------------------------------------------
  // The rules

  /** The rules of `userValidator`; `IdGreaterThan(n)` is `idGreaterThan(n)`. */
  datatype UserRule =
    | PasswordRequired | PasswordMinLength | BcryptPassword | PasswordHashRequired
    | SetRememberIfUnset | RememberMinBytes | HmacRemember | RememberHashRequired
    | NormalizeEmail_ | RequireEmail | EmailFormat | EmailIsAvail
    | IdGreaterThan(n: nat)

  /** A rule's or a run's result: the record as the rules left it, and the
      first error. */
  datatype Outcome = Outcome(user: UserRec, err: Option<Err>)

  /** The rules, one function per `userValidator` method of the same name. */
  function RulePasswordRequired(u: UserRec): Outcome
  {
    Outcome(u, if u.password == "" then Some(ErrPasswordRequired) else None)
  }

  function RulePasswordMinLength(u: UserRec): Outcome
  {
    Outcome(u, if u.password != "" && Utf8Len(u.password) < 8 then Some(ErrPasswordTooShort) else None)
  }

  function RuleBcryptPassword(u: UserRec, env: Env): Outcome
  {
    if u.password == "" then Outcome(u, None)
    else match env.crypto.bcryptHash(u.password + env.pepper, env.draw.salt)
         case Failure(e) => Outcome(u, Some(e))
         case Success(h) => Outcome(u.(passwordHash := h, password := ""), None)
  }

  /** `passwordMinLength` counts bytes: it passes exactly when the password
      is empty (that case is `passwordRequired`'s) or at least eight bytes
      long, and otherwise reports `ErrPasswordTooShort`. */
  lemma PasswordMinLengthBytes(u: UserRec)
    ensures RulePasswordMinLength(u).err.None? <==> u.password == "" || Utf8Len(u.password) >= 8
    ensures RulePasswordMinLength(u).err.Some? ==> RulePasswordMinLength(u).err == Some(ErrPasswordTooShort)
    ensures RulePasswordMinLength(u).user == u
  {
  }

  /** A password of three euro signs is three characters long but nine bytes,
      so the eight-byte minimum accepts it although it has fewer than eight
      characters. */
  lemma MinLengthCountsBytes(u: UserRec)
    requires u.password == "€€€"
    ensures |u.password| == 3 && Utf8Len(u.password) == 9
    ensures RulePasswordMinLength(u).err.None?
  {
    var s := u.password;
    assert Utf8Width('\U{20AC}') == 3;
    assert s[1..][1..][1..] == [];
    assert Utf8Len(s[1..][1..]) == 3;
    PasswordMinLengthBytes(u);
  }

  function RulePasswordHashRequired(u: UserRec): Outcome
  {
    Outcome(u, if u.passwordHash == "" then Some(ErrPasswordRequired) else None)
  }

  function RuleSetRememberIfUnset(u: UserRec, env: Env): Outcome
  {
    if u.remember != "" then Outcome(u, None)
    else match env.draw.token
         case Failure(e) => Outcome(u, Some(e))
         case Success(t) => Outcome(u.(remember := t), None)
  }

  function RuleRememberMinBytes(u: UserRec, env: Env): Outcome
  {
    if u.remember == "" then Outcome(u, None)
    else match env.crypto.nBytes(u.remember)
         case Failure(e) => Outcome(u, Some(e))
         case Success(n) => Outcome(u, if n < 32 then Some(ErrRememberTooShort) else None)
  }

  function RuleHmacRemember(u: UserRec, env: Env): Outcome
  {
    if u.remember == "" then Outcome(u, None)
    else Outcome(u.(rememberHash := env.crypto.hmac(env.hmacKey, u.remember)), None)
  }

  function RuleRememberHashRequired(u: UserRec): Outcome
  {
    Outcome(u, if u.rememberHash == "" then Some(ErrRememberRequired) else None)
  }

  function RuleNormalizeEmail(u: UserRec): Outcome
  {
    Outcome(u.(email := NormalizeEmail(u.email)), None)
  }

  function RuleRequireEmail(u: UserRec): Outcome
  {
    Outcome(u, if u.email == "" then Some(ErrEmailRequired) else None)
  }

  function RuleEmailFormat(u: UserRec): Outcome
  {
    Outcome(u, if u.email != "" && !EmailMatches(u.email) then Some(ErrEmailInvalid) else None)
  }

  function RuleEmailIsAvail(u: UserRec, env: Env): Outcome
  {
    Outcome(u, EmailAvailability(u, env.byEmail(NormalizeEmail(u.email))))
  }

  function RuleIdGreaterThan(n: nat, u: UserRec): Outcome
  {
    Outcome(u, if u.id <= n then Some(ErrInvalidID) else None)
  }

  /** One rule applied to a record. */
  function Apply(rule: UserRule, u: UserRec, env: Env): Outcome
  {
    match rule
    case PasswordRequired => RulePasswordRequired(u)
    case PasswordMinLength => RulePasswordMinLength(u)
    case BcryptPassword => RuleBcryptPassword(u, env)
    case PasswordHashRequired => RulePasswordHashRequired(u)
    case SetRememberIfUnset => RuleSetRememberIfUnset(u, env)
    case RememberMinBytes => RuleRememberMinBytes(u, env)
    case HmacRemember => RuleHmacRemember(u, env)
    case RememberHashRequired => RuleRememberHashRequired(u)
    case NormalizeEmail_ => RuleNormalizeEmail(u)
    case RequireEmail => RuleRequireEmail(u)
    case EmailFormat => RuleEmailFormat(u)
    case EmailIsAvail => RuleEmailIsAvail(u, env)
    case IdGreaterThan(n) => RuleIdGreaterThan(n, u)
  }

  /** The `emailIsAvail` decision on the lookup of the record's address. */
  function EmailAvailability(u: UserRec, lookup: Result<UserRec, Err>): (r: Option<Err>)
    ensures lookup == Failure(ErrNotFound) ==> r == None
    ensures lookup.Failure? && lookup.error != ErrNotFound ==> r == Some(lookup.error)
    ensures lookup.Success? && lookup.value.id == u.id ==> r == None
    ensures lookup.Success? && lookup.value.id != u.id ==> r == Some(ErrEmailTaken)
  {
    match lookup
    case Failure(e) => if e == ErrNotFound then None else Some(e)
    case Success(existing) => if u.id != existing.id then Some(ErrEmailTaken) else None
  }

  /** A rule that fails leaves the record as it found it. */
  lemma FailingRuleKeepsRecord(rule: UserRule, u: UserRec, env: Env)
    ensures Apply(rule, u, env).err.Some? ==> Apply(rule, u, env).user == u
  {
  }

  /** `runUserValFuncs`: apply the rules in order and stop at the first
      error; later rules are not applied. */
  function RunRules(u: UserRec, rules: seq<UserRule>, env: Env): Outcome
    decreases |rules|
  {
    if rules == [] then Outcome(u, None)
    else
      var o := Apply(rules[0], u, env);
      if o.err.Some? then o else RunRules(o.user, rules[1..], env)
  }

  /** Running `p + q` is running `p`, then — only if `p` passed — running `q`
      on what `p` left. */
  lemma {:induction false} RunRulesAppend(u: UserRec, p: seq<UserRule>, q: seq<UserRule>, env: Env)
    ensures RunRules(u, p + q, env) ==
              var o := RunRules(u, p, env); if o.err.Some? then o else RunRules(o.user, q, env)
    decreases |p|
  {
    if p == [] {
      assert p + q == q;
    } else {
      assert (p + q)[0] == p[0];
      assert (p + q)[1..] == p[1..] + q;
      var o := Apply(p[0], u, env);
      if o.err.None? {
        RunRulesAppend(o.user, p[1..], q, env);
      }
    }
  }

  /** The record before rule `k` runs, when every earlier rule passed. */
  function StateBefore(u: UserRec, rules: seq<UserRule>, k: nat, env: Env): UserRec
    requires k <= |rules|
  {
    RunRules(u, rules[..k], env).user
  }

  /** A run reports no error exactly when every rule passes on the record its
      predecessors left; and it reports the error of the first rule that
      fails, on the record just before it. */
  lemma {:induction false} RunRulesFirstError(u: UserRec, rules: seq<UserRule>, env: Env)
    ensures RunRules(u, rules, env).err.None? <==>
              forall k :: 0 <= k < |rules| ==>
                RunRules(u, rules[..k], env).err.None? && Apply(rules[k], StateBefore(u, rules, k, env), env).err.None?
    ensures RunRules(u, rules, env).err.Some? ==>
              exists k :: 0 <= k < |rules| && RunRules(u, rules[..k], env).err.None?
                          && Apply(rules[k], StateBefore(u, rules, k, env), env) == RunRules(u, rules, env)
    decreases |rules|
  {
    if rules != [] {
      var o := Apply(rules[0], u, env);
      assert rules[..1] == [rules[0]];
      assert RunRules(u, rules[..0], env) == Outcome(u, None) by { assert rules[..0] == []; }
      if o.err.None? {
        RunRulesFirstError(o.user, rules[1..], env);
        forall k | 1 <= k <= |rules|
          ensures RunRules(u, rules[..k], env) == RunRules(o.user, rules[1..][..k - 1], env)
        {
          assert rules[..k] == [rules[0]] + rules[1..][..k - 1];
          RunRulesAppend(u, [rules[0]], rules[1..][..k - 1], env);
          assert RunRules(u, [rules[0]], env) == o by { assert [rules[0]][1..] == []; }
        }
        if RunRules(u, rules, env).err.Some? {
          var k :| 0 <= k < |rules[1..]| && RunRules(o.user, rules[1..][..k], env).err.None?
                   && Apply(rules[1..][k], StateBefore(o.user, rules[1..], k, env), env) == RunRules(o.user, rules[1..], env);
          assert rules[k + 1] == rules[1..][k];
        }
      }
    }
  }

  // ---------------------------------------------------------------------------
  // The Create and Update rule lists

  const CreatePasswordRules: seq<UserRule> := [PasswordRequired, PasswordMinLength, BcryptPassword, PasswordHashRequired]
  const UpdatePasswordRules: seq<UserRule> := [PasswordMinLength, BcryptPassword, PasswordHashRequired]
  const CreateRememberRules: seq<UserRule> := [SetRememberIfUnset, RememberMinBytes, HmacRemember, RememberHashRequired]
  const UpdateRememberRules: seq<UserRule> := [RememberMinBytes, HmacRemember, RememberHashRequired]
  const EmailRules: seq<UserRule> := [NormalizeEmail_, RequireEmail, EmailFormat, EmailIsAvail]

  /** `userValidator.Create`'s list. */
  const CreateRules: seq<UserRule> := CreatePasswordRules + CreateRememberRules + EmailRules

  /** `userValidator.Update`'s list: the same without `passwordRequired` and
      `setRememberIfUnset`. */
  const UpdateRules: seq<UserRule> := UpdatePasswordRules + UpdateRememberRules + EmailRules

  /** How a run of the three stages of a list decomposes. */
  lemma RunStages(u: UserRec, p: seq<UserRule>, r: seq<UserRule>, e: seq<UserRule>, env: Env)
    ensures RunRules(u, p + r + e, env) ==
              var o1 := RunRules(u, p, env);
              if o1.err.Some? then o1
              else var o2 := RunRules(o1.user, r, env);
                   if o2.err.Some? then o2 else RunRules(o2.user, e, env)
  {
    RunRulesAppend(u, p + r, e, env);
    RunRulesAppend(u, p, r, env);
  }

  /** The password stage of `Create`: an empty password is refused whatever
      the rest of the record holds, a short one (in bytes) likewise; on
      success the salted hash of password + pepper replaces the password. */
  lemma CreatePasswordStage(u: UserRec, env: Env)
    ensures var o := RunRules(u, CreatePasswordRules, env);
      && (u.password == "" ==> o == Outcome(u, Some(ErrPasswordRequired)))
      && (u.password != "" && Utf8Len(u.password) < 8 ==> o == Outcome(u, Some(ErrPasswordTooShort)))
      && (o.err.None? ==>
            && u.password != "" && Utf8Len(u.password) >= 8
            && env.crypto.bcryptHash(u.password + env.pepper, env.draw.salt) == Success(o.user.passwordHash)
            && o.user.passwordHash != ""
            && o.user == u.(password := "", passwordHash := o.user.passwordHash))
      && o.user.(password := u.password, passwordHash := u.passwordHash) == u
  {
    assert CreatePasswordRules[1..] == UpdatePasswordRules;
    if u.password != "" {
      UpdatePasswordStage(u, env);
    }
  }

  /** The password stage of `Update`: without a new password nothing is
      rehashed and the stored hash is kept (the stage passes if there is
      one); with one it is checked and hashed as on `Create`. */
  lemma UpdatePasswordStage(u: UserRec, env: Env)
    ensures var o := RunRules(u, UpdatePasswordRules, env);
      && (u.password == "" ==> o == Outcome(u, if u.passwordHash == "" then Some(ErrPasswordRequired) else None))
      && (u.password != "" && Utf8Len(u.password) < 8 ==> o == Outcome(u, Some(ErrPasswordTooShort)))
      && (o.err.None? && u.password != "" ==>
            && Utf8Len(u.password) >= 8
            && env.crypto.bcryptHash(u.password + env.pepper, env.draw.salt) == Success(o.user.passwordHash)
            && o.user.passwordHash != "")
      && (o.err.None? ==> o.user.password == "")
      && o.user.(password := u.password, passwordHash := u.passwordHash) == u
  {
    assert UpdatePasswordRules[1..] == [BcryptPassword, PasswordHashRequired];
    if Apply(PasswordMinLength, u, env).err.None? {
      PasswordHashStage(u, env);
    }
  }

  /** `bcryptPassword` then `passwordHashRequired`. */
  lemma PasswordHashStage(u: UserRec, env: Env)
    ensures var o := RunRules(u, [BcryptPassword, PasswordHashRequired], env);
            var h := env.crypto.bcryptHash(u.password + env.pepper, env.draw.salt);
      if u.password == "" then o == Outcome(u, if u.passwordHash == "" then Some(ErrPasswordRequired) else None)
      else if h.Failure? then o == Outcome(u, Some(h.error))
      else o == Outcome(u.(passwordHash := h.value, password := ""), if h.value == "" then Some(ErrPasswordRequired) else None)
  {
    assert [BcryptPassword, PasswordHashRequired][1..] == [PasswordHashRequired];
    assert [PasswordHashRequired][1..] == [];
  }

  /** The remember stage of `Create`: a missing token is drawn from the
      random source; on success the stored hash is non-empty and, whenever
      there is a token, is its HMAC. */
  lemma CreateRememberStage(u: UserRec, env: Env)
    ensures var o := RunRules(u, CreateRememberRules, env);
      && o.user.(remember := u.remember, rememberHash := u.rememberHash) == u
      && (o.err.None? ==>
            && o.user.rememberHash != ""
            && o.user.remember == (if u.remember != "" then u.remember else env.draw.token.value)
            && (o.user.remember != "" ==> o.user.rememberHash == env.crypto.hmac(env.hmacKey, o.user.remember)))
      && (u.remember == "" && env.draw.token.Failure? ==> o == Outcome(u, Some(env.draw.token.error)))
  {
    assert CreateRememberRules[1..] == UpdateRememberRules;
    var o0 := Apply(SetRememberIfUnset, u, env);
    if o0.err.None? {
      UpdateRememberStage(o0.user, env);
    }
  }

  /** The remember stage of `Update`: no token is drawn; a given token is
      checked and hashed, none keeps the stored hash. */
  lemma UpdateRememberStage(u: UserRec, env: Env)
    ensures var o := RunRules(u, UpdateRememberRules, env);
      && o.user.(rememberHash := u.rememberHash) == u
      && (u.remember == "" ==> o == Outcome(u, if u.rememberHash == "" then Some(ErrRememberRequired) else None))
      && (o.err.None? && u.remember != "" ==> o.user.rememberHash == env.crypto.hmac(env.hmacKey, u.remember))
      && (o.err.None? ==> o.user.rememberHash != "")
  {
    assert UpdateRememberRules[1..] == [HmacRemember, RememberHashRequired];
    if Apply(RememberMinBytes, u, env).err.None? {
      RememberHashStage(u, env);
    }
  }

  /** `hmacRemember` then `rememberHashRequired`. */
  lemma RememberHashStage(u: UserRec, env: Env)
    ensures var o := RunRules(u, [HmacRemember, RememberHashRequired], env);
      && o.user == (if u.remember == "" then u else u.(rememberHash := env.crypto.hmac(env.hmacKey, u.remember)))
      && o.err == (if o.user.rememberHash == "" then Some(ErrRememberRequired) else None)
  {
    assert [HmacRemember, RememberHashRequired][1..] == [RememberHashRequired];
    assert [RememberHashRequired][1..] == [];
  }

  /** The e-mail stage: the address is normalised first (so a blank one is
      then missing), then required, then checked against the pattern, then
      looked up to make sure no other account holds it. */
  lemma EmailStage(u: UserRec, env: Env)
    ensures var o := RunRules(u, EmailRules, env);
            var n := NormalizeEmail(u.email);
      && o.user == u.(email := n)
      && o.err == (if n == "" then Some(ErrEmailRequired)
                   else if !EmailMatches(n) then Some(ErrEmailInvalid)
                   else EmailAvailability(u, env.byEmail(n)))
  {
    var v := u.(email := NormalizeEmail(u.email));
    NormalizeIdempotent(u.email);
    assert EmailRules[1..] == [RequireEmail, EmailFormat, EmailIsAvail];
    assert RunRules(u, EmailRules, env) == RunRules(v, EmailRules[1..], env);
    EmailChecks(v, env);
  }

  /** The e-mail rules after normalisation, on an already normalised address. */
  lemma EmailChecks(v: UserRec, env: Env)
    requires NormalizeEmail(v.email) == v.email
    ensures RunRules(v, [RequireEmail, EmailFormat, EmailIsAvail], env) ==
              Outcome(v, if v.email == "" then Some(ErrEmailRequired)
                         else if !EmailMatches(v.email) then Some(ErrEmailInvalid)
                         else EmailAvailability(v, env.byEmail(v.email)))
  {
    assert [RequireEmail, EmailFormat, EmailIsAvail][1..] == [EmailFormat, EmailIsAvail];
    if v.email != "" {
      EmailFormatChecks(v, env);
    }
  }

  lemma EmailFormatChecks(v: UserRec, env: Env)
    requires NormalizeEmail(v.email) == v.email && v.email != ""
    ensures RunRules(v, [EmailFormat, EmailIsAvail], env) ==
              Outcome(v, if !EmailMatches(v.email) then Some(ErrEmailInvalid)
                         else EmailAvailability(v, env.byEmail(v.email)))
  {
    assert [EmailFormat, EmailIsAvail][1..] == [EmailIsAvail];
    assert [EmailIsAvail][1..] == [];
  }

  /** `Create` runs the password rules first: an empty password yields
      `ErrPasswordRequired` and a short one `ErrPasswordTooShort`, whatever
      the e-mail address is, and the record is left as it was. */
  lemma CreatePasswordFirst(u: UserRec, env: Env)
    ensures u.password == "" ==> RunRules(u, CreateRules, env) == Outcome(u, Some(ErrPasswordRequired))
    ensures u.password != "" && Utf8Len(u.password) < 8 ==>
              RunRules(u, CreateRules, env) == Outcome(u, Some(ErrPasswordTooShort))
  {
    RunStages(u, CreatePasswordRules, CreateRememberRules, EmailRules, env);
    CreatePasswordStage(u, env);
  }

  /** After a successful `Create` run: the raw password is cleared and its
      salted hash with the pepper is stored (and, bcrypt being sound,
      verifies against password + pepper); a remember token is present (the
      random source being sound) and the stored remember hash is its HMAC;
      the address is normalised, valid and not held by another account; and
      the other fields are untouched. */
  lemma CreateSucceeds(u: UserRec, env: Env)
    requires TokenSound(env.crypto, env.draw)
    ensures var o := RunRules(u, CreateRules, env);
      o.err.None? ==>
        && o.user.password == "" && o.user.passwordHash != ""
        && env.crypto.bcryptHash(u.password + env.pepper, env.draw.salt) == Success(o.user.passwordHash)
        && (HashVerifies(env.crypto) ==> env.crypto.bcryptCompare(o.user.passwordHash, u.password + env.pepper) == None)
        && o.user.remember != ""
        && o.user.rememberHash == env.crypto.hmac(env.hmacKey, o.user.remember)
        && o.user.email == NormalizeEmail(u.email) && o.user.email != "" && EmailMatches(o.user.email)
        && EmailAvailability(u, env.byEmail(o.user.email)).None?
        && o.user.id == u.id && o.user.firstName == u.firstName && o.user.lastName == u.lastName
  {
    RunStages(u, CreatePasswordRules, CreateRememberRules, EmailRules, env);
    CreatePasswordStage(u, env);
    var o1 := RunRules(u, CreatePasswordRules, env);
    if o1.err.None? {
      CreateRememberStage(o1.user, env);
      var o2 := RunRules(o1.user, CreateRememberRules, env);
      if o2.err.None? {
        EmailStage(o2.user, env);
      }
    }
  }

  /** `Update` with no new password keeps the stored password hash, whatever
      else happens in the run. */
  lemma UpdateKeepsHash(u: UserRec, env: Env)
    requires u.password == ""
    ensures RunRules(u, UpdateRules, env).user.passwordHash == u.passwordHash
  {
    RunStages(u, UpdatePasswordRules, UpdateRememberRules, EmailRules, env);
    UpdatePasswordStage(u, env);
    var o1 := RunRules(u, UpdatePasswordRules, env);
    if o1.err.None? {
      UpdateRememberStage(o1.user, env);
      var o2 := RunRules(o1.user, UpdateRememberRules, env);
      if o2.err.None? {
        EmailStage(o2.user, env);
      }
    }
  }

  /** The three stages of a successful `Update` run, each on what the one
      before left. */
  lemma UpdateStagesPass(u: UserRec, env: Env)
    ensures var o := RunRules(u, UpdateRules, env);
            var o1 := RunRules(u, UpdatePasswordRules, env);
            var o2 := RunRules(o1.user, UpdateRememberRules, env);
      o.err.None? ==> o1.err.None? && o2.err.None? && o == RunRules(o2.user, EmailRules, env)
  {
    RunStages(u, UpdatePasswordRules, UpdateRememberRules, EmailRules, env);
  }

  /** After a successful `Update` run, a new password has been replaced by
      its salted hash with the pepper (which, bcrypt being sound, verifies
      against it), and no new password means the old hash is kept. */
  lemma UpdateSucceedsPassword(u: UserRec, env: Env)
    ensures var o := RunRules(u, UpdateRules, env);
      o.err.None? ==>
        && o.user.password == "" && o.user.passwordHash != ""
        && (u.password != "" ==> env.crypto.bcryptHash(u.password + env.pepper, env.draw.salt) == Success(o.user.passwordHash))
        && (u.password != "" && HashVerifies(env.crypto) ==>
              env.crypto.bcryptCompare(o.user.passwordHash, u.password + env.pepper) == None)
        && (u.password == "" ==> o.user.passwordHash == u.passwordHash)
  {
    UpdateStagesPass(u, env);
    var o1 := RunRules(u, UpdatePasswordRules, env);
    var o2 := RunRules(o1.user, UpdateRememberRules, env);
    if o1.err.None? && o2.err.None? {
      UpdatePasswordStage(u, env);
      UpdateRememberStage(o1.user, env);
      EmailStage(o2.user, env);
    }
  }

  /** After a successful `Update` run the address is normalised, valid and
      not held by another account, and a remember hash is stored. */
  lemma UpdateSucceedsEmail(u: UserRec, env: Env)
    ensures var o := RunRules(u, UpdateRules, env);
      o.err.None? ==>
        && o.user.rememberHash != ""
        && o.user.email == NormalizeEmail(u.email) && o.user.email != "" && EmailMatches(o.user.email)
        && EmailAvailability(u, env.byEmail(o.user.email)).None?
  {
    UpdateStagesPass(u, env);
    var o1 := RunRules(u, UpdatePasswordRules, env);
    var o2 := RunRules(o1.user, UpdateRememberRules, env);
    if o1.err.None? && o2.err.None? {
      UpdatePasswordStage(u, env);
      UpdateRememberStage(o1.user, env);
      EmailStage(o2.user, env);
      assert o2.user.email == u.email && o2.user.id == u.id;
    }
  }

  /** Once the password and remember rules have passed, a blank address is
      refused as missing, not as malformed. */
  lemma BlankEmailIsMissing(u: UserRec, env: Env)
    requires forall i :: 0 <= i < |u.email| ==> IsSpace(u.email[i])
    ensures RunRules(u, EmailRules, env) == Outcome(u.(email := ""), Some(ErrEmailRequired))
  {
    BlankNormalizesToEmpty(u.email);
    EmailStage(u, env);
  }
}
