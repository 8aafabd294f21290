/** Books (models/books.go): the book record, its fail-fast validation chain,
    the validating layer over a map-backed book table, and the offset
    arithmetic of paginated listing. */
module Books {

  import opened Wrappers
  import opened Errors
  import Reviews

  datatype Book = Book(id: nat, userID: nat, title: string, author: string,
                       category: string, summary: string, image: string)

  /** The six rules of `bookValidator`. */
  datatype BookRule = UserIDRequired | TitleRequired | SummaryRequired
                    | CategoryRequired | ImageRequired | AuthorRequired

  /** The error a rule reports; every rule has its own. */
  function RuleError(rule: BookRule): Err
  {
    match rule
    case UserIDRequired => ErrUserIDRequired
    case TitleRequired => ErrTitleRequired
    case SummaryRequired => ErrBookSummaryRequired
    case CategoryRequired => ErrBookCategoryRequired
    case ImageRequired => ErrBookImageRequired
    case AuthorRequired => ErrBookAuthorRequired
  }

  /** The field a rule guards is missing: a zero user id or an empty string. */
  predicate Missing(rule: BookRule, b: Book)
  {
    match rule
    case UserIDRequired => b.userID == 0
    case TitleRequired => b.title == ""
    case SummaryRequired => b.summary == ""
    case CategoryRequired => b.category == ""
    case ImageRequired => b.image == ""
    case AuthorRequired => b.author == ""
  }

  /** One rule applied to a book; the rules only read it. */
  function Check(rule: BookRule, b: Book): (r: Option<Err>)
  {
    match rule
    case UserIDRequired => if b.userID == 0 then Some(ErrUserIDRequired) else None
    case TitleRequired => if b.title == "" then Some(ErrTitleRequired) else None
    case SummaryRequired => if b.summary == "" then Some(ErrBookSummaryRequired) else None
    case CategoryRequired => if b.category == "" then Some(ErrBookCategoryRequired) else None
    case ImageRequired => if b.image == "" then Some(ErrBookImageRequired) else None
    case AuthorRequired => if b.author == "" then Some(ErrBookAuthorRequired) else None
  }

  /** A rule fails exactly when its field is missing, and then with its own
      error; distinct rules report distinct errors. */
  lemma CheckSpec(rule: BookRule, other: BookRule, b: Book)
    ensures Check(rule, b).Some? <==> Missing(rule, b)
    ensures Check(rule, b).Some? ==> Check(rule, b) == Some(RuleError(rule))
    ensures rule != other ==> RuleError(rule) != RuleError(other)
  {
  }

  /** The chain `Create` and `Update` both run. */
  const BookRules: seq<BookRule> :=
    [UserIDRequired, TitleRequired, SummaryRequired, CategoryRequired, ImageRequired, AuthorRequired]

  /** The error the first failing rule reports, if any. */
  function FirstFailure(b: Book, rules: seq<BookRule>): Option<Err>
  {
    if rules == [] then None
    else if Check(rules[0], b).Some? then Check(rules[0], b)
    else FirstFailure(b, rules[1..])
  }

  /** `FirstFailure` reports `None` exactly when every rule passes, and
      otherwise the error of a rule that fails after only passing ones. */
  lemma {:induction false} FirstFailureIsFirst(b: Book, rules: seq<BookRule>)
    ensures FirstFailure(b, rules).None? <==> forall k :: 0 <= k < |rules| ==> Check(rules[k], b).None?
    ensures FirstFailure(b, rules).Some? ==>
              exists k :: 0 <= k < |rules| && Check(rules[k], b) == FirstFailure(b, rules)
                          && forall j :: 0 <= j < k ==> Check(rules[j], b).None?
  {
    if rules != [] && Check(rules[0], b).None? {
      FirstFailureIsFirst(b, rules[1..]);
      assert forall k :: 1 <= k < |rules| ==> rules[k] == rules[1..][k - 1];
      if FirstFailure(b, rules).Some? {
        var k :| 0 <= k < |rules[1..]| && Check(rules[1..][k], b) == FirstFailure(b, rules[1..])
                 && forall j :: 0 <= j < k ==> Check(rules[1..][j], b).None?;
        assert Check(rules[k + 1], b) == FirstFailure(b, rules);
      }
    } else if rules != [] {
      assert Check(rules[0], b) == FirstFailure(b, rules);
    }
  }

  /** The book chain checks user id, title, summary, category, image and
      author in that order; the first missing field decides the error. */
  lemma BookChainOrder(b: Book)
    ensures FirstFailure(b, BookRules) ==
              if b.userID == 0 then Some(ErrUserIDRequired)
              else if b.title == "" then Some(ErrTitleRequired)
              else if b.summary == "" then Some(ErrBookSummaryRequired)
              else if b.category == "" then Some(ErrBookCategoryRequired)
              else if b.image == "" then Some(ErrBookImageRequired)
              else if b.author == "" then Some(ErrBookAuthorRequired)
              else None
  {
    var r1 := BookRules[1..];
    var r2 := r1[1..];
    var r3 := r2[1..];
    var r4 := r3[1..];
    var r5 := r4[1..];
    assert BookRules[0] == UserIDRequired && r1[0] == TitleRequired && r2[0] == SummaryRequired;
    assert r3[0] == CategoryRequired && r4[0] == ImageRequired && r5[0] == AuthorRequired;
    assert r5[1..] == [];
    assert FirstFailure(b, r5) == if b.author == "" then Some(ErrBookAuthorRequired) else None;
    assert FirstFailure(b, r4) == if b.image == "" then Some(ErrBookImageRequired) else FirstFailure(b, r5);
    assert FirstFailure(b, r3) == if b.category == "" then Some(ErrBookCategoryRequired) else FirstFailure(b, r4);
    assert FirstFailure(b, r2) == if b.summary == "" then Some(ErrBookSummaryRequired) else FirstFailure(b, r3);
    assert FirstFailure(b, r1) == if b.title == "" then Some(ErrTitleRequired) else FirstFailure(b, r2);
  }

  /** A book without a title and without an author is refused for its title. */
  lemma MissingTitleAndAuthor(b: Book)
    requires b.userID != 0 && b.title == "" && b.author == ""
    ensures FirstFailure(b, BookRules) == Some(ErrTitleRequired)
  {
    BookChainOrder(b);
  }

  /** `runBookValidationFunc`: run the rules in order, stopping at the first
      error. */
  method RunBookValidation(b: Book, rules: seq<BookRule>) returns (err: Option<Err>)
    ensures err == FirstFailure(b, rules)
    ensures err.None? <==> forall k :: 0 <= k < |rules| ==> Check(rules[k], b).None?
  {
    var i := 0;
    while i < |rules|
      invariant 0 <= i <= |rules|
      invariant forall k :: 0 <= k < i ==> Check(rules[k], b).None?
      invariant FirstFailure(b, rules) == FirstFailure(b, rules[i..])
    {
      assert rules[i..][1..] == rules[i + 1..];
      var e := Check(rules[i], b);
      if e.Some? {
        FirstFailureIsFirst(b, rules);
        return e;
      }
      i := i + 1;
    }
    FirstFailureIsFirst(b, rules);
    return None;
  }

  /** The row offset `AllBooks` (and `AllUsers`) asks the database for. */
  function Offset(limit: int, page: int): int
  {
    limit * page - limit
  }

  /** Page 1 starts at row 0, and each page starts `limit` rows after the one
      before it, so consecutive pages are adjacent windows of `limit` rows. */
  lemma OffsetPages(limit: int, page: int)
    ensures Offset(limit, 1) == 0
    ensures Offset(limit, page) == limit * (page - 1)
    ensures Offset(limit, page + 1) == Offset(limit, page) + limit
  {
    assert limit * (page + 1) == limit * page + limit;
    assert limit * (page - 1) == limit * page - limit;
  }

  /** The book table behind the validator (`bookGorm`), a map from id to row.
      `nextID` is the next value of the table's id sequence and `gone` the
      ids of soft-deleted rows (the embedded `gorm.Model`'s `DeletedAt`):
      queries skip them, but they keep their primary key. `fault` is the
      error the database reports on every call while it is set; unset, the
      table behaves as a map. */
  class BookGorm {
    var rows: map<nat, Book>
    var nextID: nat
    var gone: set<nat>
    var fault: Option<Err>

    ghost predicate Valid()
      reads this
    {
      && 0 < nextID
      && fault != Some(RecordNotFound)
      && (forall id :: id in rows ==> 0 < id && rows[id].id == id)
      && 0 !in gone
      && rows.Keys !! gone
    }

    /** Whether the primary key `id` is held by a row, live or soft-deleted. */
    predicate Taken(id: nat)
      reads this
    {
      id in rows || id in gone
    }

    constructor ()
      ensures Valid() && rows == map[] && gone == {} && fault == None
    {
      rows, nextID, gone, fault := map[], 1, {}, None;
    }

    /** `ByID`, through `first`. */
    method ByID(id: nat) returns (res: Result<Book, Err>)
      requires Valid()
      ensures fault.Some? ==> res == Failure(fault.value)
      ensures fault.None? && id in rows ==> res == Success(rows[id])
      ensures fault.None? && id !in rows ==> res == Failure(ErrNotFound)
    {
      var err := if fault.Some? then fault else if id in rows then None else Some(RecordNotFound);
      err := Reviews.First(err);
      if err.Some? {
        return Failure(err.value);
      }
      return Success(rows[id]);
    }

    /** `Create`: insert the book. A preset id is kept and leaves the
      sequence alone; a blank one takes the sequence's next value, which is
      used up even if the insert then fails. An id held by a row, live or
      soft-deleted, breaks the primary key. */
    method Create(b: Book) returns (res: Result<Book, Err>)
      requires Valid()
      modifies this
      ensures Valid() && fault == old(fault)
      ensures old(fault).Some? ==> res == Failure(old(fault).value) && unchanged(this)
      ensures gone == old(gone)
      ensures old(fault).None? ==> nextID == if b.id == 0 then old(nextID) + 1 else old(nextID)
      ensures old(fault).None? ==>
                var id := if b.id == 0 then old(nextID) else b.id;
                && (old(Taken(id)) ==> res == Failure(UniqueViolation) && rows == old(rows))
                && (!old(Taken(id)) ==> res == Success(b.(id := id)) && rows == old(rows)[id := b.(id := id)])
    {
      if fault.Some? {
        return Failure(fault.value);
      }
      var id := b.id;
      if id == 0 {
        id := nextID;
        nextID := nextID + 1;
      }
      if Taken(id) {
        return Failure(UniqueViolation);
      }
      var saved := b.(id := id);
      rows := rows[id := saved];
      return Success(saved);
    }

    /** `Update` (gorm's `Save`): a book without an id is inserted as by
      `Create`; one with an id overwrites that row, or inserts it under that
      id when the update matched no live row, which a soft-deleted row
      holding the id refuses. */
    method Update(b: Book) returns (res: Result<Book, Err>)
      requires Valid()
      modifies this
      ensures Valid() && fault == old(fault)
      ensures old(fault).Some? ==> res == Failure(old(fault).value) && unchanged(this)
      ensures gone == old(gone)
      ensures old(fault).None? && b.id == 0 ==>
                && nextID == old(nextID) + 1
                && (old(Taken(nextID)) ==> res == Failure(UniqueViolation) && rows == old(rows))
                && (!old(Taken(nextID)) ==>
                      res == Success(b.(id := old(nextID))) && rows == old(rows)[old(nextID) := b.(id := old(nextID))])
      ensures old(fault).None? && b.id != 0 ==> nextID == old(nextID)
      ensures old(fault).None? && b.id != 0 && b.id in old(gone) ==>
                res == Failure(UniqueViolation) && rows == old(rows)
      ensures old(fault).None? && b.id != 0 && b.id !in old(gone) ==>
                res == Success(b) && rows == old(rows)[b.id := b]
    {
      if fault.Some? {
        return Failure(fault.value);
      }
      if b.id == 0 {
        res := Create(b);
        return;
      }
      if b.id in gone {
        return Failure(UniqueViolation);
      }
      rows := rows[b.id := b];
      return Success(b);
    }

    /** `Delete` by id, a soft delete: the row leaves the live rows but its
      id stays taken. gorm issues the delete without a condition when the
      id is blank, so id 0 soft-deletes every row. */
    method Delete(id: nat) returns (err: Option<Err>)
      requires Valid()
      modifies this
      ensures Valid() && fault == old(fault) && nextID == old(nextID)
      ensures err == old(fault)
      ensures old(fault).Some? ==> rows == old(rows) && gone == old(gone)
      ensures old(fault).None? && id == 0 ==> rows == map[] && gone == old(gone) + old(rows).Keys
      ensures old(fault).None? && id != 0 ==>
                rows == old(rows) - {id} && gone == old(gone) + (if id in old(rows) then {id} else {})
      ensures forall k :: old(Taken(k)) ==> Taken(k)
    {
      if fault.Some? {
        return fault;
      }
      if id == 0 {
        gone := gone + rows.Keys;
        rows := map[];
      } else {
        if id in rows {
          gone := gone + {id};
        }
        rows := rows - {id};
      }
      return None;
    }
  }

  /** A deleted book keeps its id: creating a book under that id again, or
      saving one with it, is refused by the primary key. */
  method DeleteThenReuseID(db: BookGorm, b: Book) returns (deleted: Option<Err>, created: Result<Book, Err>, saved: Result<Book, Err>)
    requires db.Valid() && db.fault.None? && b.id in db.rows
    modifies db
    ensures deleted == None && created == Failure(UniqueViolation) && saved == Failure(UniqueViolation)
  {
    deleted := db.Delete(b.id);
    created := db.Create(b);
    saved := db.Update(b);
  }

  /** `bookValidator`: runs the book chain before writes, and guards `Delete`
      against id 0, in front of the table. */
  class BookValidator {
    const db: BookGorm

    constructor (db: BookGorm)
      ensures this.db == db
    {
      this.db := db;
    }

    /** `Create`: on a validation error the table is not touched; otherwise
      the insert decides. */
    method Create(b: Book) returns (res: Result<Book, Err>)
      requires db.Valid()
      modifies db
      ensures db.Valid() && db.fault == old(db.fault)
      ensures FirstFailure(b, BookRules).Some? ==>
                res == Failure(FirstFailure(b, BookRules).value) && unchanged(db)
      ensures FirstFailure(b, BookRules).None? && old(db.fault).Some? ==>
                res == Failure(old(db.fault).value) && unchanged(db)
      ensures FirstFailure(b, BookRules).None? && old(db.fault).None? ==>
                var id := if b.id == 0 then old(db.nextID) else b.id;
                && db.nextID == (if b.id == 0 then old(db.nextID) + 1 else old(db.nextID))
                && db.gone == old(db.gone)
                && (old(db.Taken(id)) ==> res == Failure(UniqueViolation) && db.rows == old(db.rows))
                && (!old(db.Taken(id)) ==> res == Success(b.(id := id)) && db.rows == old(db.rows)[id := b.(id := id)])
    {
      var err := RunBookValidation(b, BookRules);
      if err.Some? {
        return Failure(err.value);
      }
      res := db.Create(b);
    }

    /** `Update`: the same chain; on a validation error the table's `Update`
      is not called. */
    method Update(b: Book) returns (res: Result<Book, Err>)
      requires db.Valid()
      modifies db
      ensures db.Valid() && db.fault == old(db.fault)
      ensures FirstFailure(b, BookRules).Some? ==>
                res == Failure(FirstFailure(b, BookRules).value) && unchanged(db)
      ensures FirstFailure(b, BookRules).None? && old(db.fault).Some? ==>
                res == Failure(old(db.fault).value) && unchanged(db)
      ensures FirstFailure(b, BookRules).None? && old(db.fault).None? && b.id == 0 ==>
                && db.nextID == old(db.nextID) + 1
                && db.gone == old(db.gone)
                && (old(db.Taken(db.nextID)) ==> res == Failure(UniqueViolation) && db.rows == old(db.rows))
                && (!old(db.Taken(db.nextID)) ==>
                      res == Success(b.(id := old(db.nextID))) && db.rows == old(db.rows)[old(db.nextID) := b.(id := old(db.nextID))])
      ensures FirstFailure(b, BookRules).None? && old(db.fault).None? && b.id != 0 ==>
                && db.nextID == old(db.nextID) && db.gone == old(db.gone)
                && (b.id in old(db.gone) ==> res == Failure(UniqueViolation) && db.rows == old(db.rows))
                && (b.id !in old(db.gone) ==> res == Success(b) && db.rows == old(db.rows)[b.id := b])
    {
      var err := RunBookValidation(b, BookRules);
      if err.Some? {
        return Failure(err.value);
      }
      res := db.Update(b);
    }

    /** `Delete`: id 0 is refused with `ErrInvalidID` and the table is not
      touched (the table would otherwise lose every row); any other id is
      passed on. */
    method Delete(id: nat) returns (err: Option<Err>)
      requires db.Valid()
      modifies db
      ensures db.Valid()
      ensures id == 0 ==> err == Some(ErrInvalidID) && unchanged(db)
      ensures id != 0 ==> err == old(db.fault)
      ensures id != 0 && old(db.fault).None? ==>
                db.rows == old(db.rows) - {id} && db.gone == old(db.gone) + (if id in old(db.rows) then {id} else {})
    {
      if id == 0 {
        return Some(ErrInvalidID);
      }
      err := db.Delete(id);
    }
  }
}
