/** Reviews (models/reviews.go): the review record, its fail-fast validation
    chain, the validating layer over a map-backed review table, and `first`,
    the package-wide mapping of gorm's record-not-found error. */
module Reviews {

  import opened Wrappers
  import opened Errors

  /** `first`: a query that found nothing reports `ErrNotFound`; every other
      outcome, success included, is passed on unchanged. */
  function First(err: Option<Err>): (r: Option<Err>)
    ensures err == Some(RecordNotFound) ==> r == Some(ErrNotFound)
    ensures err != Some(RecordNotFound) ==> r == err
    ensures r != Some(RecordNotFound)
  {
    if err == Some(RecordNotFound) then Some(ErrNotFound) else err
  }

  /** A review. `notes` is declared unexported, so nothing outside the
      package can set it; here it is an ordinary field, as evidently intended
      (see `DecodeAsWritten` and `Decode`). */
  datatype Review = Review(id: nat, userID: nat, bookID: nat, notes: string)

  /** The three rules of `reviewValidator`. */
  datatype ReviewRule = UserIDRequired | BookIDRequired | ReviewNotesRequired

  /** One rule applied to a review; the rules only read it. */
  function Check(rule: ReviewRule, r: Review): Option<Err>
  {
    match rule
    case UserIDRequired => if r.userID == 0 then Some(ErrUserIDRequired) else None
    case BookIDRequired => if r.bookID == 0 then Some(ErrBookIDRequired) else None
    case ReviewNotesRequired => if r.notes == "" then Some(ErrReviewRequired) else None
  }

  /** The chain `Create` and `Update` both run. */
  const ReviewRules: seq<ReviewRule> := [UserIDRequired, BookIDRequired, ReviewNotesRequired]

  /** The error the first failing rule reports, if any. */
  function FirstFailure(r: Review, rules: seq<ReviewRule>): Option<Err>
  {
    if rules == [] then None
    else if Check(rules[0], r).Some? then Check(rules[0], r)
    else FirstFailure(r, rules[1..])
  }

  /** `FirstFailure` reports `None` exactly when every rule passes, and
      otherwise the error of a rule that fails after only passing ones.
      models/reviews.go repeats the runner of models/books.go for its own
      rule type, so this lemma and `RunReviewValidation` repeat their Books
      counterparts. */
  lemma {:induction false} FirstFailureIsFirst(r: Review, rules: seq<ReviewRule>)
    ensures FirstFailure(r, rules).None? <==> forall k :: 0 <= k < |rules| ==> Check(rules[k], r).None?
    ensures FirstFailure(r, rules).Some? ==>
              exists k :: 0 <= k < |rules| && Check(rules[k], r) == FirstFailure(r, rules)
                          && forall j :: 0 <= j < k ==> Check(rules[j], r).None?
  {
    if rules != [] && Check(rules[0], r).None? {
      FirstFailureIsFirst(r, rules[1..]);
      assert forall k :: 1 <= k < |rules| ==> rules[k] == rules[1..][k - 1];
      if FirstFailure(r, rules).Some? {
        var k :| 0 <= k < |rules[1..]| && Check(rules[1..][k], r) == FirstFailure(r, rules[1..])
                 && forall j :: 0 <= j < k ==> Check(rules[1..][j], r).None?;
        assert Check(rules[k + 1], r) == FirstFailure(r, rules);
      }
    } else if rules != [] {
      assert Check(rules[0], r) == FirstFailure(r, rules);
    }
  }

  /** The review chain checks the user id, then the book id, then the notes,
      and stops at the first one missing. */
  lemma ReviewChainOrder(r: Review)
    ensures FirstFailure(r, ReviewRules) ==
              if r.userID == 0 then Some(ErrUserIDRequired)
              else if r.bookID == 0 then Some(ErrBookIDRequired)
              else if r.notes == "" then Some(ErrReviewRequired)
              else None
  {
    var r1 := ReviewRules[1..];
    var r2 := r1[1..];
    assert ReviewRules[0] == UserIDRequired && r1[0] == BookIDRequired && r2[0] == ReviewNotesRequired;
    assert r2[1..] == [];
    assert FirstFailure(r, r2) == if r.notes == "" then Some(ErrReviewRequired) else None;
  }

  /** A review as a client sends it: the JSON keys `id`, `user_id`,
      `book_id` and `notes`. */
  datatype ReviewBody = ReviewBody(id: nat, userID: nat, bookID: nat, notes: string)

  /** The `Review` decoding a body yields with the struct as declared:
      `notes` is unexported, so `encoding/json` skips it (and gorm, for the
      same reason, neither stores nor loads it). */
  function DecodeAsWritten(b: ReviewBody): Review
  {
    Review(b.id, b.userID, b.bookID, "")
  }

  /** As declared, no review a client sends passes the chain: with both ids
      set it always fails on the notes, whatever notes were sent. */
  lemma NotesNeverArrive(b: ReviewBody)
    ensures FirstFailure(DecodeAsWritten(b), ReviewRules).Some?
    ensures b.userID != 0 && b.bookID != 0 ==> FirstFailure(DecodeAsWritten(b), ReviewRules) == Some(ErrReviewRequired)
  {
    ReviewChainOrder(DecodeAsWritten(b));
  }

  /** The input that shows it: both ids and some notes, refused for missing
      notes. */
  lemma NotesNeverArriveExample()
    ensures var b := ReviewBody(0, 1, 2, "A fine read");
      b.notes != "" && FirstFailure(DecodeAsWritten(b), ReviewRules) == Some(ErrReviewRequired)
  {
    NotesNeverArrive(ReviewBody(0, 1, 2, "A fine read"));
  }

  /** Decoding with the field exported (`Notes`, still under the JSON key
      `notes`): the notes arrive with the ids. */
  function Decode(b: ReviewBody): Review
  {
    Review(b.id, b.userID, b.bookID, b.notes)
  }

  /** With the field exported, a decoded review passes the chain exactly when
      both ids and the notes are present, and keeps the notes sent. */
  lemma DecodedChain(b: ReviewBody)
    ensures FirstFailure(Decode(b), ReviewRules).None? <==> b.userID != 0 && b.bookID != 0 && b.notes != ""
    ensures Decode(b).notes == b.notes && Decode(b).userID == b.userID && Decode(b).bookID == b.bookID
  {
    ReviewChainOrder(Decode(b));
  }

  /** `runReviewValidationFunc`: run the rules in order, stopping at the first
      error (the same loop as `Books.RunBookValidation`). */
  method RunReviewValidation(r: Review, rules: seq<ReviewRule>) returns (err: Option<Err>)
    ensures err == FirstFailure(r, rules)
    ensures err.None? <==> forall k :: 0 <= k < |rules| ==> Check(rules[k], r).None?
  {
    var i := 0;
    while i < |rules|
      invariant 0 <= i <= |rules|
      invariant forall k :: 0 <= k < i ==> Check(rules[k], r).None?
      invariant FirstFailure(r, rules) == FirstFailure(r, rules[i..])
    {
      assert rules[i..][1..] == rules[i + 1..];
      var e := Check(rules[i], r);
      if e.Some? {
        FirstFailureIsFirst(r, rules);
        return e;
      }
      i := i + 1;
    }
    FirstFailureIsFirst(r, rules);
    return None;
  }

  /** The review table behind the validator (`reviewGorm`), a map from id to
      row. `nextID` is the next value of the table's id sequence. `fault` is
      the error the database reports on every call while it is set (a lost
      connection, say); unset, the table behaves as a map. */
  class ReviewGorm {
    var rows: map<nat, Review>
    var nextID: nat
    var gone: set<nat>
    var fault: Option<Err>

    ghost predicate Valid()
      reads this
    {
      && 0 < nextID
      && fault != Some(RecordNotFound)
      && (forall id :: id in rows ==> 0 < id && rows[id].id == id)
      && 0 !in gone
      && rows.Keys !! gone
    }

    /** Whether the primary key `id` is held by a row, live or soft-deleted. */
    predicate Taken(id: nat)
      reads this
    {
      id in rows || id in gone
    }

    constructor ()
      ensures Valid() && rows == map[] && gone == {} && fault == None
    {
      rows, nextID, gone, fault := map[], 1, {}, None;
    }

    /** `ByID`, through `first`. */
    method ByID(id: nat) returns (res: Result<Review, Err>)
      requires Valid()
      ensures fault.Some? ==> res == Failure(fault.value)
      ensures fault.None? && id in rows ==> res == Success(rows[id])
      ensures fault.None? && id !in rows ==> res == Failure(ErrNotFound)
    {
      var err := if fault.Some? then fault else if id in rows then None else Some(RecordNotFound);
      err := First(err);
      if err.Some? {
        return Failure(err.value);
      }
      return Success(rows[id]);
    }

    /** `Create`: insert the review. A preset id is kept and leaves the
      sequence alone; a blank one takes the sequence's next value, which is
      used up even if the insert then fails. An id held by a row, live or
      soft-deleted, breaks the primary key. */
    method Create(r: Review) returns (res: Result<Review, Err>)
      requires Valid()
      modifies this
      ensures Valid() && fault == old(fault)
      ensures old(fault).Some? ==> res == Failure(old(fault).value) && unchanged(this)
      ensures gone == old(gone)
      ensures old(fault).None? ==> nextID == if r.id == 0 then old(nextID) + 1 else old(nextID)
      ensures old(fault).None? ==>
                var id := if r.id == 0 then old(nextID) else r.id;
                && (old(Taken(id)) ==> res == Failure(UniqueViolation) && rows == old(rows))
                && (!old(Taken(id)) ==> res == Success(r.(id := id)) && rows == old(rows)[id := r.(id := id)])
    {
      if fault.Some? {
        return Failure(fault.value);
      }
      var id := r.id;
      if id == 0 {
        id := nextID;
        nextID := nextID + 1;
      }
      if Taken(id) {
        return Failure(UniqueViolation);
      }
      var saved := r.(id := id);
      rows := rows[id := saved];
      return Success(saved);
    }

    /** `Update` (gorm's `Save`): a review without an id is inserted as by
      `Create`; one with an id overwrites that row, or inserts it under that
      id when the update matched no live row, which a soft-deleted row
      holding the id refuses. */
    method Update(r: Review) returns (res: Result<Review, Err>)
      requires Valid()
      modifies this
      ensures Valid() && fault == old(fault)
      ensures old(fault).Some? ==> res == Failure(old(fault).value) && unchanged(this)
      ensures gone == old(gone)
      ensures old(fault).None? && r.id == 0 ==>
                && nextID == old(nextID) + 1
                && (old(Taken(nextID)) ==> res == Failure(UniqueViolation) && rows == old(rows))
                && (!old(Taken(nextID)) ==>
                      res == Success(r.(id := old(nextID))) && rows == old(rows)[old(nextID) := r.(id := old(nextID))])
      ensures old(fault).None? && r.id != 0 ==> nextID == old(nextID)
      ensures old(fault).None? && r.id != 0 && r.id in old(gone) ==>
                res == Failure(UniqueViolation) && rows == old(rows)
      ensures old(fault).None? && r.id != 0 && r.id !in old(gone) ==>
                res == Success(r) && rows == old(rows)[r.id := r]
    {
      if fault.Some? {
        return Failure(fault.value);
      }
      if r.id == 0 {
        res := Create(r);
        return;
      }
      if r.id in gone {
        return Failure(UniqueViolation);
      }
      rows := rows[r.id := r];
      return Success(r);
    }

    /** `Delete` by id, a soft delete: the row leaves the live rows but its
      id stays taken. gorm issues the delete without a condition when the
      id is blank, so id 0 soft-deletes every row. */
    method Delete(id: nat) returns (err: Option<Err>)
      requires Valid()
      modifies this
      ensures Valid() && fault == old(fault) && nextID == old(nextID)
      ensures err == old(fault)
      ensures old(fault).Some? ==> rows == old(rows) && gone == old(gone)
      ensures old(fault).None? && id == 0 ==> rows == map[] && gone == old(gone) + old(rows).Keys
      ensures old(fault).None? && id != 0 ==>
                rows == old(rows) - {id} && gone == old(gone) + (if id in old(rows) then {id} else {})
      ensures forall k :: old(Taken(k)) ==> Taken(k)
    {
      if fault.Some? {
        return fault;
      }
      if id == 0 {
        gone := gone + rows.Keys;
        rows := map[];
      } else {
        if id in rows {
          gone := gone + {id};
        }
        rows := rows - {id};
      }
      return None;
    }
  }

  /** `reviewValidator`: runs the review chain before writes, and guards
      `Delete` against id 0, in front of the table. */
  class ReviewValidator {
    const db: ReviewGorm

    constructor (db: ReviewGorm)
      ensures this.db == db
    {
      this.db := db;
    }

    /** `Create`: on a validation error the table is not touched; otherwise
      the insert decides. */
    method Create(r: Review) returns (res: Result<Review, Err>)
      requires db.Valid()
      modifies db
      ensures db.Valid() && db.fault == old(db.fault)
      ensures FirstFailure(r, ReviewRules).Some? ==>
                res == Failure(FirstFailure(r, ReviewRules).value) && unchanged(db)
      ensures FirstFailure(r, ReviewRules).None? && old(db.fault).Some? ==>
                res == Failure(old(db.fault).value) && unchanged(db)
      ensures FirstFailure(r, ReviewRules).None? && old(db.fault).None? ==>
                var id := if r.id == 0 then old(db.nextID) else r.id;
                && db.nextID == (if r.id == 0 then old(db.nextID) + 1 else old(db.nextID))
                && db.gone == old(db.gone)
                && (old(db.Taken(id)) ==> res == Failure(UniqueViolation) && db.rows == old(db.rows))
                && (!old(db.Taken(id)) ==> res == Success(r.(id := id)) && db.rows == old(db.rows)[id := r.(id := id)])
    {
      var err := RunReviewValidation(r, ReviewRules);
      if err.Some? {
        return Failure(err.value);
      }
      res := db.Create(r);
    }

    /** `Update`: the same chain; on a validation error the table's `Update`
      is not called. */
    method Update(r: Review) returns (res: Result<Review, Err>)
      requires db.Valid()
      modifies db
      ensures db.Valid() && db.fault == old(db.fault)
      ensures FirstFailure(r, ReviewRules).Some? ==>
                res == Failure(FirstFailure(r, ReviewRules).value) && unchanged(db)
      ensures FirstFailure(r, ReviewRules).None? && old(db.fault).Some? ==>
                res == Failure(old(db.fault).value) && unchanged(db)
      ensures FirstFailure(r, ReviewRules).None? && old(db.fault).None? && r.id == 0 ==>
                && db.nextID == old(db.nextID) + 1
                && db.gone == old(db.gone)
                && (old(db.Taken(db.nextID)) ==> res == Failure(UniqueViolation) && db.rows == old(db.rows))
                && (!old(db.Taken(db.nextID)) ==>
                      res == Success(r.(id := old(db.nextID))) && db.rows == old(db.rows)[old(db.nextID) := r.(id := old(db.nextID))])
      ensures FirstFailure(r, ReviewRules).None? && old(db.fault).None? && r.id != 0 ==>
                && db.nextID == old(db.nextID) && db.gone == old(db.gone)
                && (r.id in old(db.gone) ==> res == Failure(UniqueViolation) && db.rows == old(db.rows))
                && (r.id !in old(db.gone) ==> res == Success(r) && db.rows == old(db.rows)[r.id := r])
    {
      var err := RunReviewValidation(r, ReviewRules);
      if err.Some? {
        return Failure(err.value);
      }
      res := db.Update(r);
    }

    /** `Delete`: id 0 is refused with `ErrInvalidID` and the table is not
      touched; any other id is passed on. */
    method Delete(id: nat) returns (err: Option<Err>)
      requires db.Valid()
      modifies db
      ensures db.Valid()
      ensures id == 0 ==> err == Some(ErrInvalidID) && unchanged(db)
      ensures id != 0 ==> err == old(db.fault)
      ensures id != 0 && old(db.fault).None? ==>
                db.rows == old(db.rows) - {id} && db.gone == old(db.gone) + (if id in old(db.rows) then {id} else {})
    {
      if id == 0 {
        return Some(ErrInvalidID);
      }
      err := db.Delete(id);
    }
  }
}
