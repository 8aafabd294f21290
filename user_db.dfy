/** The database layer under the user validator (models/users.go): the
    mutable `User` the rules work on, the users table (`userGorm`) with its
    unique e-mail and remember-hash indexes, and the password-reset table
    the service uses. */
module UserDB {

  import opened Wrappers
  import opened Errors
  import opened Users
  import Reviews

  /** `User`, as the validator and the controllers share it by pointer. */
  class User {
    var id: nat
    var firstName: string
    var lastName: string
    var email: string
    var password: string
    var passwordHash: string
    var remember: string
    var rememberHash: string

    function Rec(): UserRec
      reads this
    {
      UserRec(id, firstName, lastName, email, password, passwordHash, remember, rememberHash)
    }

    constructor (r: UserRec)
      ensures Rec() == r
    {
      id, firstName, lastName, email := r.id, r.firstName, r.lastName, r.email;
      password, passwordHash, remember, rememberHash := r.password, r.passwordHash, r.remember, r.rememberHash;
    }

    /** Overwrite every field. */
    method Assign(r: UserRec)
      modifies this
      ensures Rec() == r
    {
      id, firstName, lastName, email := r.id, r.firstName, r.lastName, r.email;
      password, passwordHash, remember, rememberHash := r.password, r.passwordHash, r.remember, r.rememberHash;
    }
  }

  /** The row a record becomes: `Password` and `Remember` are not columns. */
  function Persisted(u: UserRec): (p: UserRec)
    ensures p.password == "" && p.remember == ""
    ensures p.(password := u.password, remember := u.remember) == u
  {
    u.(password := "", remember := "")
  }

  /** Whether storing `u` would break a unique index: another row has its
      e-mail address or its remember hash. */
  predicate Conflicts(rows: map<nat, UserRec>, u: UserRec)
  {
    exists k :: k in rows && k != u.id && (rows[k].email == u.email || rows[k].rememberHash == u.rememberHash)
  }

  /** Whether inserting `u` under its id would be refused: the id is taken
      (the primary key) or a unique index clashes. */
  predicate Clash(rows: map<nat, UserRec>, u: UserRec)
  {
    u.id in rows || Conflicts(rows, u)
  }

  /** Whether `Save` of `u` under its non-zero id would be refused, when
      `rows` are the live rows and `gone` the soft-deleted ones: a
      soft-deleted row holds the id, so the insert `Save` falls back to
      breaks the primary key, or a row of either kind clashes on a unique
      index. */
  predicate SaveClash(rows: map<nat, UserRec>, gone: map<nat, UserRec>, u: UserRec)
  {
    u.id in gone || Conflicts(rows + gone, u)
  }

  /** The users table's promises: each row under its own non-zero id,
      secrets cleared, the unique indexes respected. */
  ghost predicate WellFormed(rows: map<nat, UserRec>)
  {
    && (forall id :: id in rows ==> 0 < id && rows[id].id == id)
    && (forall id :: id in rows ==> rows[id].password == "" && rows[id].remember == "")
    && (forall a, b :: a in rows && b in rows && rows[a].email == rows[b].email ==> a == b)
    && (forall a, b :: a in rows && b in rows && rows[a].rememberHash == rows[b].rememberHash ==> a == b)
  }

  /** Storing a row that clashes with no other row on either unique index
      keeps the table well formed. */
  lemma InsertKeepsWellFormed(rows: map<nat, UserRec>, v: UserRec)
    requires WellFormed(rows) && 0 < v.id && !Conflicts(rows, v)
    ensures WellFormed(rows[v.id := Persisted(v)])
  {
  }

  /** A soft delete of one live row moves it to the deleted rows: the table
      as a whole is the same. */
  lemma SoftDeleteOne(rows: map<nat, UserRec>, gone: map<nat, UserRec>, id: nat)
    requires id in rows && rows.Keys !! gone.Keys
    ensures (rows - {id}) + gone[id := rows[id]] == rows + gone
    ensures (rows - {id}).Keys !! gone[id := rows[id]].Keys
  {
  }

  /** A soft delete of every live row leaves the table as a whole the same. */
  lemma SoftDeleteAll(rows: map<nat, UserRec>, gone: map<nat, UserRec>)
    requires rows.Keys !! gone.Keys
    ensures map[] + (gone + rows) == rows + gone
  {
  }

  /** For a live row, `Save`'s refusal is a unique-index clash with some
      row of the table. */
  lemma LiveSaveClash(rows: map<nat, UserRec>, gone: map<nat, UserRec>, u: UserRec)
    requires u.id in rows && rows.Keys !! gone.Keys
    ensures SaveClash(rows, gone, u) == Conflicts(rows + gone, u)
  {
  }

  /** What `ByID` on the table returns when it holds `rows` and its standing
      error is `fault`. */
  function IdQuery(rows: map<nat, UserRec>, fault: Option<Err>, id: nat): (r: Result<UserRec, Err>)
    ensures fault.Some? ==> r == Failure(fault.value)
    ensures fault.None? ==> (r.Success? <==> id in rows)
    ensures fault.None? && r.Success? ==> r.value == rows[id]
    ensures fault.None? && r.Failure? ==> r.error == ErrNotFound
  {
    if fault.Some? then Failure(fault.value) else if id in rows then Success(rows[id]) else Failure(ErrNotFound)
  }

  /** What `ByEmail` on the table returns when it holds `rows` and its
      standing error is `fault`. */
  ghost function EmailQuery(rows: map<nat, UserRec>, fault: Option<Err>, email: string): (r: Result<UserRec, Err>)
    ensures fault.Some? ==> r == Failure(fault.value)
    ensures fault.None? && r.Success? ==> (exists k :: k in rows && rows[k] == r.value) && r.value.email == email
    ensures fault.None? && r.Failure? ==> r == Failure(ErrNotFound) && forall k :: k in rows ==> rows[k].email != email
  {
    if fault.Some? then Failure(fault.value)
    else if exists k :: k in rows && rows[k].email == email then
      var k :| k in rows && rows[k].email == email; Success(rows[k])
    else Failure(ErrNotFound)
  }

  /** The same for `ByRemember` on a remember hash. */
  ghost function RememberQuery(rows: map<nat, UserRec>, fault: Option<Err>, hash: string): (r: Result<UserRec, Err>)
    ensures fault.Some? ==> r == Failure(fault.value)
    ensures fault.None? && r.Success? ==> (exists k :: k in rows && rows[k] == r.value) && r.value.rememberHash == hash
    ensures fault.None? && r.Failure? ==> r == Failure(ErrNotFound) && forall k :: k in rows ==> rows[k].rememberHash != hash
  {
    if fault.Some? then Failure(fault.value)
    else if exists k :: k in rows && rows[k].rememberHash == hash then
      var k :| k in rows && rows[k].rememberHash == hash; Success(rows[k])
    else Failure(ErrNotFound)
  }

  /** The users table (`userGorm`), a map from id to live row. `gone` holds
      the soft-deleted rows (the embedded `gorm.Model`'s `DeletedAt`):
      queries skip them, but they keep their id and their entries in the
      unique indexes. `fault` is the error the database reports on every
      call while it is set; unset, the table behaves as a map with two
      unique indexes. */
  class UserGorm {
    var rows: map<nat, UserRec>
    var nextID: nat
    var gone: map<nat, UserRec>
    var fault: Option<Err>

    /** Every row the table holds, live or soft-deleted. */
    function All(): map<nat, UserRec>
      reads this
    {
      rows + gone
    }

    ghost predicate Valid()
      reads this
    {
      && 0 < nextID
      && fault != Some(RecordNotFound)
      && WellFormed(All())
      && rows.Keys !! gone.Keys
    }

    constructor ()
      ensures Valid() && rows == map[] && gone == map[] && fault == None
    {
      rows, nextID, gone, fault := map[], 1, map[], None;
    }

    /** `ByID`, through `first`. */
    method ByID(id: nat) returns (r: Result<UserRec, Err>)
      requires Valid()
      ensures r == IdQuery(rows, fault, id)
    {
      var err := if fault.Some? then fault else if id in rows then None else Some(RecordNotFound);
      err := Reviews.First(err);
      if err.Some? {
        return Failure(err.value);
      }
      return Success(rows[id]);
    }

    /** `ByEmail`, through `first`: the one row holding the address. */
    method ByEmail(email: string) returns (r: Result<UserRec, Err>)
      requires Valid()
      ensures r == EmailQuery(rows, fault, email)
    {
      var err := if fault.Some? then fault
                 else if exists k :: k in rows && rows[k].email == email then None
                 else Some(RecordNotFound);
      err := Reviews.First(err);
      if err.Some? {
        return Failure(err.value);
      }
      var k :| k in rows && rows[k].email == email;
      return Success(rows[k]);
    }

    /** `ByRemember`, through `first`: the one row holding the hash. */
    method ByRemember(hash: string) returns (r: Result<UserRec, Err>)
      requires Valid()
      ensures r == RememberQuery(rows, fault, hash)
    {
      var err := if fault.Some? then fault
                 else if exists k :: k in rows && rows[k].rememberHash == hash then None
                 else Some(RecordNotFound);
      err := Reviews.First(err);
      if err.Some? {
        return Failure(err.value);
      }
      var k :| k in rows && rows[k].rememberHash == hash;
      return Success(rows[k]);
    }

    /** `Create`: insert the user. A preset id is kept and leaves the
      sequence alone; a blank one takes the sequence's next value, which is
      used up even if the insert then fails, and is backfilled into the user
      on success. An id held by any row, or a clash with any row on either
      unique index, is refused by the database; soft-deleted rows count. */
    method Create(u: User) returns (err: Option<Err>)
      requires Valid()
      modifies this, u
      ensures Valid() && fault == old(fault)
      ensures old(fault).Some? ==> err == old(fault) && unchanged(this) && unchanged(u)
      ensures gone == old(gone)
      ensures old(fault).None? ==> nextID == if old(u.id) == 0 then old(nextID) + 1 else old(nextID)
      ensures old(fault).None? ==>
                var v := old(u.Rec()).(id := if old(u.id) == 0 then old(nextID) else old(u.id));
                && (Clash(old(All()), v) ==> err == Some(UniqueViolation) && rows == old(rows) && unchanged(u))
                && (!Clash(old(All()), v) ==> err == None && u.Rec() == v && rows == old(rows)[v.id := Persisted(v)])
    {
      if fault.Some? {
        return fault;
      }
      var id := u.id;
      if id == 0 {
        id := nextID;
        nextID := nextID + 1;
      }
      var rec := u.Rec().(id := id);
      if Clash(All(), rec) {
        return Some(UniqueViolation);
      }
      InsertKeepsWellFormed(All(), rec);
      assert All()[id := Persisted(rec)] == rows[id := Persisted(rec)] + gone;
      rows := rows[id := Persisted(rec)];
      u.id := id;
      return None;
    }

    /** `Update` (gorm's `Save`): a user without an id is inserted as by
      `Create`; one with an id overwrites that row, or inserts it under that
      id when the update matched no live row, under the same unique
      indexes; a soft-deleted row holding the id refuses that insert. */
    method Update(u: User) returns (err: Option<Err>)
      requires Valid()
      modifies this, u
      ensures Valid() && fault == old(fault)
      ensures old(fault).Some? ==> err == old(fault) && unchanged(this) && unchanged(u)
      ensures gone == old(gone)
      ensures old(u.id) != 0 ==> unchanged(u) && nextID == old(nextID)
      ensures old(fault).None? && old(u.id) != 0 && SaveClash(old(rows), old(gone), u.Rec()) ==>
                err == Some(UniqueViolation) && rows == old(rows)
      ensures old(fault).None? && old(u.id) != 0 && !SaveClash(old(rows), old(gone), u.Rec()) ==>
                err == None && rows == old(rows)[u.id := Persisted(u.Rec())]
      ensures old(fault).None? && old(u.id) == 0 ==>
                var v := old(u.Rec()).(id := old(nextID));
                && nextID == old(nextID) + 1
                && (Clash(old(All()), v) ==> err == Some(UniqueViolation) && rows == old(rows) && unchanged(u))
                && (!Clash(old(All()), v) ==> err == None && u.Rec() == v && rows == old(rows)[v.id := Persisted(v)])
    {
      if fault.Some? {
        return fault;
      }
      if u.id == 0 {
        err := Create(u);
        return;
      }
      var rec := u.Rec();
      if SaveClash(rows, gone, rec) {
        return Some(UniqueViolation);
      }
      InsertKeepsWellFormed(All(), rec);
      assert All()[rec.id := Persisted(rec)] == rows[rec.id := Persisted(rec)] + gone;
      rows := rows[rec.id := Persisted(rec)];
      return None;
    }

    /** `Delete` by id, a soft delete: the row leaves the live rows but the
      table still holds it. gorm issues the delete without a condition when
      the id is blank, so id 0 soft-deletes every row. */
    method Delete(id: nat) returns (err: Option<Err>)
      requires Valid()
      modifies this
      ensures Valid() && fault == old(fault) && nextID == old(nextID)
      ensures err == old(fault)
      ensures All() == old(All())
      ensures old(fault).Some? ==> rows == old(rows) && gone == old(gone)
      ensures old(fault).None? && id == 0 ==> rows == map[] && gone == old(gone) + old(rows)
      ensures old(fault).None? && id != 0 ==>
                && rows == old(rows) - {id}
                && gone == if id in old(rows) then old(gone)[id := old(rows)[id]] else old(gone)
    {
      if fault.Some? {
        return fault;
      }
      if id == 0 {
        SoftDeleteAll(rows, gone);
        gone := gone + rows;
        rows := map[];
      } else if id in rows {
        SoftDeleteOne(rows, gone, id);
        gone := gone[id := rows[id]];
        rows := rows - {id};
      }
      return None;
    }
  }

  /** A password-reset row: the user it is for, the HMAC of the emailed
      token, and when it was made (nanoseconds). */
  datatype PwReset = PwReset(id: nat, userID: nat, tokenHash: string, createdAt: int)

  /** The reset row a token opens, when the reset table holds `rows` and
      its standing error is `fault`. */
  function ResetQuery(rows: map<string, PwReset>, fault: Option<Err>, hash: string): (r: Result<PwReset, Err>)
    requires fault != Some(RecordNotFound)
    ensures fault.Some? ==> r == Failure(fault.value)
    ensures fault.None? ==> (r.Success? <==> hash in rows)
    ensures fault.None? && r.Success? ==> r.value == rows[hash]
    ensures fault.None? && r.Failure? ==> r.error == ErrNotFound
  {
    match Reviews.First(if fault.Some? then fault else if hash in rows then None else Some(RecordNotFound))
    case Some(e) => Failure(e)
    case None => Success(rows[hash])
  }

  /** The password-reset table behind `pwResetDB`, keyed by token hash. The
      tokens are drawn and hashed with the same HMAC key as remember tokens. */
  class PwResetDB {
    var rows: map<string, PwReset>
    var nextID: nat
    var fault: Option<Err>
    const crypto: Crypto
    const hmacKey: string

    ghost predicate Valid()
      reads this
    {
      && 0 < nextID
      && fault != Some(RecordNotFound)
      && (forall h :: h in rows ==> rows[h].tokenHash == h && 0 < rows[h].id < nextID)
      && (forall a, b :: a in rows && b in rows && rows[a].id == rows[b].id ==> a == b)
    }

    constructor (crypto: Crypto, hmacKey: string)
      ensures Valid() && rows == map[] && fault == None
      ensures this.crypto == crypto && this.hmacKey == hmacKey
    {
      rows, nextID, fault := map[], 1, None;
      this.crypto, this.hmacKey := crypto, hmacKey;
    }

    /** The key a token is stored under. */
    function Key(token: string): string
    {
      crypto.hmac(hmacKey, token)
    }

    /** `ByToken`: the row under the token's hash. */
    method ByToken(token: string) returns (r: Result<PwReset, Err>)
      requires Valid()
      ensures r == ResetQuery(rows, fault, Key(token))
    {
      r := ResetQuery(rows, fault, Key(token));
    }

    /** `Create`: draw a token, store a row for `userID` under its hash and
      return the token; the hash is a unique column. */
    method Create(userID: nat, draw: Draw, now: int) returns (r: Result<string, Err>)
      requires Valid()
      modifies this
      ensures Valid() && fault == old(fault)
      ensures old(fault).Some? ==> r == Failure(old(fault).value) && unchanged(this)
      ensures old(fault).None? && draw.token.Failure? ==> r == Failure(draw.token.error) && unchanged(this)
      ensures old(fault).None? && draw.token.Success? && Key(draw.token.value) in old(rows) ==>
                r == Failure(UniqueViolation) && unchanged(this)
      ensures old(fault).None? && draw.token.Success? && Key(draw.token.value) !in old(rows) ==>
                && r == Success(draw.token.value)
                && rows == old(rows)[Key(draw.token.value) := PwReset(old(nextID), userID, Key(draw.token.value), now)]
                && nextID == old(nextID) + 1
    {
      if fault.Some? {
        return Failure(fault.value);
      }
      if draw.token.Failure? {
        return Failure(draw.token.error);
      }
      var token := draw.token.value;
      var hash := Key(token);
      if hash in rows {
        return Failure(UniqueViolation);
      }
      rows := rows[hash := PwReset(nextID, userID, hash, now)];
      nextID := nextID + 1;
      return Success(token);
    }

    /** `Delete` by id. */
    method Delete(id: nat) returns (err: Option<Err>)
      requires Valid()
      modifies this
      ensures Valid() && fault == old(fault) && nextID == old(nextID)
      ensures err == old(fault)
      ensures old(fault).Some? ==> rows == old(rows)
      ensures old(fault).None? ==> rows == map h | h in old(rows) && old(rows)[h].id != id :: old(rows)[h]
    {
      if fault.Some? {
        return fault;
      }
      rows := map h | h in rows && rows[h].id != id :: rows[h];
      return None;
    }
  }
}
