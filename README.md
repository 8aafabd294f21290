# Literary Reviews: a Dafny model of the account, catalogue and client-state core

This project models the core of *go-book*, a book-review web application with
a Go back end and a React client, and proves properties of that model.

**Accounts** (`models/users.go`):
- `userValidator` runs fail-fast chains of rules over a user before the users
  table sees it:
  - password presence and minimum length in UTF-8 bytes;
  - bcrypt hashing of password plus pepper;
  - drawing and HMAC-hashing a remember token;
  - e-mail normalisation, presence, pattern and availability.
- The users table keeps two unique indexes, on the e-mail address and on the
  remember hash.
- `userService` authenticates by e-mail and password, and runs the password
  reset: issue a token, then redeem it within three hours, once.

**Catalogue** (`models/books.go`, `models/reviews.go`): fail-fast validation
chains in front of map-backed tables. Also `first`, which turns gorm's
record-not-found into `ErrNotFound`, and the pagination offset.

**Errors** (`models/errors.go`):
- The error constants and their texts.
- `modelError.Public()`: drop the first `"models: "`, title-case the first
  space-separated word, re-join.

**Mail** (`email/mailgun.go`): the sender formatting `buildEmail` and the
functional options applied by `NewClient`.

**Client state** (`authReducer.js`, `bookReducer.js`):
- The reducers are modelled as functions on JavaScript objects.
- The `TypeError`s they can throw come back as `Failure`.
- The cookie write of the auth reducer is returned as a value.

The modules follow the source files:

| module | file | models |
|---|---|---|
| `Wrappers` | `wrappers.dfy` | `Option` and `Result` |
| `Errors` | `errors.dfy` | `models/errors.go` |
| `Reviews` | `reviews.dfy` | `models/reviews.go`, including `first` |
| `Books` | `books.dfy` | `models/books.go` |
| `Users` | `users.dfy` | the user record, the rules and the rule lists of `models/users.go` |
| `UserDB` | `user_db.dfy` | the mutable `User`, the table `userGorm`, and the reset table the service uses |
| `UserServices` | `user_service.dfy` | `userValidator` and `userService` |
| `UserScenarios` | `scenarios.dfy` | flows that chain several service calls |
| `Mail` | `mailgun.dfy` | `email/mailgun.go` |
| `Js`, `AuthReducer`, `BookReducer` | `js.dfy`, `auth_reducer.dfy`, `book_reducer.dfy` | the two reducers |

Foreign code and the environment are made explicit:
- bcrypt, HMAC and `rand.NBytes` are function-valued fields of `Users.Crypto`.
- The random bcrypt salt and the random token one call draws form a
  `Users.Draw` parameter.
- The clock is a `now` parameter, in nanoseconds.
- The pepper and the HMAC key are constructor arguments.
- Database failures other than "not found" are a `fault` field of each table.
  While `fault` is set, every call reports it.
- Each table's `nextID` is the next value of its id sequence. An insert keeps
  a preset id, which a client can send in the JSON body. A blank id takes the
  next sequence value, used up even when the insert then fails. An id already
  in the table is refused as `UniqueViolation`.
- Deletes are soft, as the embedded `gorm.Model` makes them. A deleted row
  moves to the table's `gone` part: queries no longer see it, but it keeps
  its id and, for users, its place in the e-mail and remember-hash unique
  indexes. A later insert that needs any of those is refused.

Where bcrypt or the random source must behave for a property to hold, the
lemma says so by a hypothesis:
- `HashVerifies`: a hash bcrypt produced verifies against its plaintext.
- `TokenSound`: a drawn token is non-empty and decodes to 32 bytes.

The code is followed where the design text differs from it: a reset token is
rejected only when strictly more than three hours old (`>` at
`models/users.go:151`), so at exactly three hours it is still accepted.

## Model

| member | source | states |
|---|---|---|
| Errors.ErrorText | models/errors.go:5-75 | each model and private error has the text of its constant, and every such text starts with `"models: "` |
| Errors.ModelTextStartsLower | models/errors.go:5-75 | every `modelError` text continues after `"models: "` with a lower-case letter |
| Errors.ReplaceFirstSpec | models/errors.go:86 | `strings.Replace(s, old, "", 1)` replaces only the first occurrence, keeps the rest verbatim, and leaves a string without an occurrence unchanged |
| Errors.Split | models/errors.go:87 | `strings.Split(s, " ")` yields at least one piece and no piece contains a space |
| Errors.JoinSplit | models/errors.go:87-89 | joining the pieces of a split with single spaces gives back the original string |
| Errors.JoinReplaceHead | models/errors.go:87-89 | replacing the first piece and re-joining changes only the text before the first space |
| Errors.Title | models/errors.go:88 | title-casing keeps the length of the word |
| Errors.PublicFirstWord | models/errors.go:85-90 | `Public` is the title-cased first word of the de-prefixed text followed by everything from its first space on |
| Errors.ReplacePrefix | models/errors.go:86 | a text starting with `"models: "` loses exactly that prefix |
| Errors.PublicOfPrefixed | models/errors.go:85-90 | for `"models: " + w + rest`, where `w` has no space and `rest` is empty or starts with a space, `Public` gives `Title(w) + rest` |
| Errors.PublicCapitalises | models/errors.go:85-90 | when the prefix is followed by a lower-case letter, the public text starts with its upper-case form |
| Errors.PublicNotFound | models/errors.go:8-90 | `ErrNotFound.Public()` is `"Resource not found"` |
| Errors.PublicDropsPrefix | models/errors.go:85-90 | no `modelError` has a public text starting with `"models: "` |
| Reviews.First | models/reviews.go:178-184 | record-not-found becomes `ErrNotFound`; everything else, success included, passes unchanged; the result is never record-not-found |
| Reviews.FirstFailureIsFirst | models/reviews.go:43-50 | the chain reports no error iff every rule passes, and otherwise the error of a failing rule preceded only by passing ones |
| Reviews.ReviewChainOrder | models/reviews.go:60-113 | the review chain checks user id, then book id, then notes, and reports the first one missing |
| Reviews.NotesNeverArrive | models/reviews.go:11 | with `notes` unexported, a decoded client review never passes the chain; with both ids set it fails with `ErrReviewRequired` whatever notes were sent |
| Reviews.NotesNeverArriveExample | models/reviews.go:108-112 | the body with user 1, book 2 and notes "A fine read" is refused with `ErrReviewRequired` |
| Reviews.DecodedChain | models/reviews.go:60-113 | with the field exported, a decoded review keeps the notes sent and passes the chain iff both ids and the notes are present |
| Reviews.RunReviewValidation | models/reviews.go:43-50 | the loop returns the chain's first error, and none iff every rule passes |
| Reviews.ReviewGorm.ByID | models/reviews.go:123-128 | a fault is reported; otherwise the row under the id, or `ErrNotFound` |
| Reviews.ReviewGorm.Create | models/reviews.go:131-138 | a preset id is kept and leaves the sequence alone; a blank id takes the next sequence value, used up even when the insert fails; an id held by a live or soft-deleted row is `UniqueViolation` with the rows unchanged; otherwise the review is stored under the id the result carries; a fault changes nothing |
| Reviews.ReviewGorm.Update | models/reviews.go:141-148 | id 0 inserts as `Create` does, clash and sequence included; any other id overwrites (upserts) that row and leaves the sequence alone, unless a soft-deleted row holds it (`UniqueViolation`, rows unchanged) |
| Reviews.ReviewGorm.Delete | models/reviews.go:150-153 | a soft delete: the row leaves the live rows and its id joins the deleted ids, so no id is ever freed; id 0 soft-deletes every row, as an unconditioned delete does |
| Reviews.ReviewValidator.Create | models/reviews.go:60-70 | a chain error is returned with the table untouched; otherwise the table's insert decides: fault, taken id (soft-deleted rows included), or the stored review |
| Reviews.ReviewValidator.Update | models/reviews.go:72-82 | a chain error is returned with the table untouched; otherwise a fault changes nothing, id 0 is inserted as by `Create` (or refused on a taken sequence id), and any other id overwrites its row unless a soft-deleted row holds it |
| Reviews.ReviewValidator.Delete | models/reviews.go:84-89 | id 0 gives `ErrInvalidID` and never reaches the table; any other id is soft-deleted by the table |
| Books.CheckSpec | models/books.go:103-149 | each book rule fails exactly when its field is missing, with its own error; distinct rules report distinct errors |
| Books.FirstFailureIsFirst | models/books.go:46-53 | the chain reports no error iff every rule passes, otherwise the first failing rule's error |
| Books.BookChainOrder | models/books.go:63-76 | the chain checks user id, title, summary, category, image and author in that order |
| Books.MissingTitleAndAuthor | models/books.go:63-76 | a book missing both title and author is refused for its title |
| Books.RunBookValidation | models/books.go:46-53 | the loop returns the chain's first error, and none iff every rule passes |
| Books.OffsetPages | models/books.go:200-204 | page 1 starts at row 0 and consecutive pages are `limit` rows apart |
| Books.BookGorm.ByID | models/books.go:158-163 | a fault is reported; otherwise the row under the id, or `ErrNotFound` |
| Books.BookGorm.Create | models/books.go:166-172 | a preset id is kept and leaves the sequence alone; a blank id takes the next sequence value, used up even when the insert fails; an id held by a live or soft-deleted row is `UniqueViolation` with the rows unchanged; otherwise the book is stored under the id the result carries; a fault changes nothing |
| Books.BookGorm.Update | models/books.go:175-181 | id 0 inserts as `Create` does, clash and sequence included; any other id overwrites (upserts) that row and leaves the sequence alone, unless a soft-deleted row holds it (`UniqueViolation`, rows unchanged) |
| Books.BookGorm.Delete | models/books.go:184-187 | a soft delete: the row leaves the live rows and its id joins the deleted ids, so every id held before is held after; id 0 soft-deletes every row |
| Books.DeleteThenReuseID | models/books.go:166-187 | after deleting a book, both a `Create` and a `Save` under its id are `UniqueViolation` |
| Books.BookValidator.Create | models/books.go:63-76 | a chain error is returned with the table untouched; otherwise the table's insert decides: fault, taken id (soft-deleted rows included), or the stored book |
| Books.BookValidator.Update | models/books.go:79-92 | a chain error is returned with the table untouched; otherwise a fault changes nothing, id 0 is inserted as by `Create` (or refused on a taken sequence id), and any other id overwrites its row unless a soft-deleted row holds it |
| Books.BookValidator.Delete | models/books.go:95-100 | id 0 gives `ErrInvalidID` and never reaches the table; any other id is soft-deleted by the table |
| Users.Utf8Len | models/users.go:382 | `len` counts UTF-8 bytes, which are never fewer than the characters |
| Users.MinLengthCountsBytes | models/users.go:378-386 | a three-character password of euro signs is nine bytes long, so `passwordMinLength` accepts it although it has fewer than eight characters |
| Users.PasswordMinLengthBytes | models/users.go:378-386 | `passwordMinLength` passes iff the password is empty or at least eight UTF-8 bytes long, otherwise reports `ErrPasswordTooShort`, and never changes the record |
| Users.TrimSpaceShape | models/users.go:335 | `strings.TrimSpace` returns a slice of its input with no white space at either end |
| Users.NormalizeIdempotent | models/users.go:333-337 | normalising an already normalised address changes nothing |
| Users.BlankNormalizesToEmpty | models/users.go:333-337 | an address made only of white space normalises to the empty string |
| Users.EmailAvailability | models/users.go:359-375 | not found means available; another lookup error is passed on; a hit on another account is `ErrEmailTaken`; a hit on the same id is fine |
| Users.FailingRuleKeepsRecord | models/users.go:275-417 | a rule that fails leaves the user record as it found it |
| Users.RunRulesAppend | models/users.go:171-178 | running `p + q` is running `p`, then `q` only if `p` passed, on what `p` left |
| Users.RunRulesFirstError | models/users.go:171-178 | the runner reports no error iff each rule passes on what its predecessors left; otherwise the error of the first failing rule, on the record just before it |
| Users.RunStages | models/users.go:223-262 | a Create or Update run is its password, remember and e-mail stages in sequence, each run only if the one before passed |
| Users.CreatePasswordStage | models/users.go:226-229 | empty is `ErrPasswordRequired`, short is `ErrPasswordTooShort`; success leaves the bcrypt hash of password plus pepper and a cleared password; only the two password fields change |
| Users.UpdatePasswordStage | models/users.go:248-250 | without a new password the stored hash is kept, and the stage passes iff there is one; a new password is checked and hashed as in Create |
| Users.CreateRememberStage | models/users.go:230-233 | a missing token is drawn; on success the remember hash is non-empty and is the HMAC of the token; a failed draw is returned unchanged |
| Users.UpdateRememberStage | models/users.go:251-253 | no token is drawn; a given token is hashed, and with none the stored hash is kept and must be non-empty |
| Users.EmailStage | models/users.go:234-237 | the address is normalised; then, in order: missing is `ErrEmailRequired`, off-pattern is `ErrEmailInvalid`, otherwise the availability decision |
| Users.PasswordHashStage | models/users.go:278-291 | with no password the run passes iff a hash is stored; otherwise a bcrypt failure is returned, and success stores bcrypt of password plus pepper and clears the password |
| Users.RememberHashStage | models/users.go:293-321 | a token, when present, is replaced in the hash field by its HMAC; the run fails with `ErrRememberRequired` iff the resulting hash is empty |
| Users.EmailChecks | models/users.go:340-375 | on a normalised address: missing, then off-pattern, then the availability decision |
| Users.EmailFormatChecks | models/users.go:348-375 | on a normalised non-empty address: off-pattern is `ErrEmailInvalid`, otherwise the availability decision on that address |
| Users.CreatePasswordFirst | models/users.go:223-242 | with an empty or too short password, Create fails on that, whatever the address, and changes nothing |
| Users.CreateSucceeds | models/users.go:223-242 | after a passing Create chain the password is cleared and its hash verifies; a remember token exists and its HMAC is the stored hash; the address is normalised, valid and free; id and names are untouched |
| Users.UpdateStagesPass | models/users.go:245-262 | a passing Update chain passed its password, remember and e-mail stages in turn |
| Users.UpdateSucceedsPassword | models/users.go:245-262 | after a passing Update chain a new password's hash is bcrypt of password plus pepper and verifies; no new password keeps the old hash |
| Users.UpdateSucceedsEmail | models/users.go:245-262 | after a passing Update chain the address is normalised, valid and free, and a remember hash is stored |
| Users.UpdateKeepsHash | models/users.go:245-262 | Update with no new password never changes the stored password hash |
| Users.BlankEmailIsMissing | models/users.go:333-345 | a white-space-only address is refused as missing, not as malformed, and is left normalised to the empty string |
| UserDB.Persisted | models/users.go:28-31 | the stored row drops the raw password and remember token and keeps everything else |
| UserDB.IdQuery | models/users.go:437-442 | a fault is reported; otherwise the row under the id, or `ErrNotFound` |
| UserDB.EmailQuery | models/users.go:454-459 | a fault is reported; otherwise a row holding the address, or `ErrNotFound` exactly when no row holds it |
| UserDB.RememberQuery | models/users.go:465-472 | a fault is reported; otherwise a row holding the remember hash, or `ErrNotFound` exactly when none does |
| UserDB.UserGorm.ByID | models/users.go:437-442 | the lookup through `first` is `IdQuery` on the current table |
| UserDB.UserGorm.ByEmail | models/users.go:454-459 | the lookup through `first` is `EmailQuery`; the unique index makes the row it returns the only one |
| UserDB.UserGorm.ByRemember | models/users.go:465-472 | the lookup through `first` is `RememberQuery`; the unique index makes the row it returns the only one |
| UserDB.UserGorm.Create | models/users.go:476-482 | a preset id is kept, a blank one takes the next sequence value (used up even on failure); a fault, or an id, e-mail or remember hash that any row holds (soft-deleted rows included), leaves rows and user unchanged; otherwise the id is backfilled and the secret-free row is stored under it |
| UserDB.UserGorm.Update | models/users.go:486-492 | id 0 inserts as `Create` does, the clash case included; otherwise the row under the id is replaced unless a soft-deleted row holds the id or the unique indexes forbid it (`UniqueViolation`, rows unchanged), and the sequence is left alone; the password-free table invariant is kept |
| UserDB.UserGorm.Delete | models/users.go:495-498 | a soft delete: the row moves from the live rows to the deleted ones, so the table as a whole, with its ids and unique-index entries, is unchanged; id 0 soft-deletes every row |
| UserDB.LiveSaveClash | models/users.go:486-492 | for a live row, `Save` is refused exactly when another row, live or deleted, shares its e-mail or remember hash |
| UserDB.ResetQuery | models/users.go:143-149 | a fault is reported; otherwise the reset row stored under the token's hash, or `ErrNotFound` exactly when there is none |
| UserDB.PwResetDB.ByToken | models/users.go:143 | the token is hashed with the HMAC key and looked up by hash |
| UserDB.PwResetDB.Create | models/users.go:132-138 | a drawn token's hash is stored with the user id and the creation time, and the raw token is returned; a failed draw, a fault or an existing hash changes nothing |
| UserDB.PwResetDB.Delete | models/users.go:163 | every reset row with the id is removed |
| UserServices.RulesKeepIdentity | models/users.go:275-417 | no rule list changes a user's id or names |
| UserServices.UserValidator.ByID | models/users.go:437-442 | passed straight to the table |
| UserServices.UserValidator.ByEmail | models/users.go:199-207 | the address is normalised before lookup, so case and surrounding white space do not matter |
| UserServices.UserValidator.ByRemember | models/users.go:211-219 | the token's HMAC is looked up (an empty token looks up the empty hash) |
| UserServices.UserValidator.ApplyRule | models/users.go:275-417 | each rule mutates the user in place exactly as the rule function `Users.Apply` describes |
| UserServices.UserValidator.RunUserValFuncs | models/users.go:171-178 | the loop leaves the user and returns the error exactly as the fail-fast fold `Users.RunRules` does |
| UserServices.UserValidator.Create | models/users.go:223-242 | a chain error returns with the table untouched and the user as the rules left it; otherwise the table's insert decides: fault, `UniqueViolation` on an id or unique-index value any row holds, soft-deleted ones included, or the backfilled insert, with the sequence advanced only for a blank id |
| UserServices.UserValidator.Update | models/users.go:245-262 | a chain error returns with the table untouched; otherwise a fault changes nothing, a user with an id overwrites its row unless a soft-deleted row holds the id or the unique indexes forbid it, and one without is inserted as by `Create`, clash included |
| UserServices.UserValidator.Delete | models/users.go:265-273 | id 0 fails `idGreaterThan(0)` with `ErrInvalidID` and never reaches the table; any other id is soft-deleted, the table as a whole unchanged |
| UserServices.ResetCheck | models/users.go:143-153 | an unknown token and one older than three hours are both `ErrTokenInvalid`; other lookup errors pass; a token within the window passes |
| UserServices.ExpiredLooksUnknown | models/users.go:145-153 | an expired token yields the same result as an unknown one |
| UserServices.ResetExpiryBoundary | models/users.go:151-153 | a token exactly three hours old passes; one nanosecond older is `ErrTokenInvalid` |
| UserServices.UserService.Authenticate | models/users.go:107-124 | lookup errors, `ErrNotFound` included, pass; a bcrypt mismatch is `ErrPasswordIncorrect`; other compare errors pass; a match returns the stored row |
| UserServices.UserService.InitiateReset | models/users.go:127-139 | an unknown address, a reset-table fault, a failed draw and a token whose hash is already stored (`UniqueViolation`) all fail with the reset table untouched; otherwise a reset row for that user is stored under the next id and the raw token returned |
| UserServices.UserService.CompleteReset | models/users.go:142-165 | token, expiry, account and Update-chain failures change nothing; a save the table refuses (`SaveClash`: a unique-index clash with any row) is `UniqueViolation` and leaves the reset table alone; on success the row is saved with the new hash, and exactly the used reset row is gone while every other reset row stays |
| UserScenarios.SignUpThenLogIn | models/users.go:107-242 | after a successful sign-up, the same e-mail and password authenticate and return the stored account |
| UserScenarios.SignUpThenRemember | models/users.go:211-242 | after a successful sign-up, the user's remember token finds the stored account |
| UserScenarios.DeleteThenSignUpAgain | models/users.go:223-273 | once an account is deleted, signing up again with its address fails, though the availability check no longer sees the account |
| UserScenarios.ResetTwice | models/users.go:142-165 | completing a reset a second time with the same token is `ErrTokenInvalid` |
| UserScenarios.ResetThenLogIn | models/users.go:107-165 | after a successful reset to a non-empty password, that password authenticates the account |
| Mail.BuildEmail | email/mailgun.go:121-126 | no name gives the bare address; otherwise exactly `name`, `" <"`, the address and `">"` |
| Mail.LastSender | email/mailgun.go:83-91 | finds the last `WithSender` option; every option after it, or every option when there is none, is `WithMailgun` |
| Mail.LastSenderDecides | email/mailgun.go:72-91 | the last `WithSender` decides the sender; with none it stays `support@literaryreviews.com` |
| Mail.LastMailgun | email/mailgun.go:64-91 | finds the last `WithMailgun` option; every option after it, or every option when there is none, is `WithSender` |
| Mail.MgAfterDecides | email/mailgun.go:64-91 | the last `WithMailgun` decides the connection (its domain and both keys); with none there is no connection |
| Mail.Client.constructor | email/mailgun.go:83-91 | applying the options in order gives the sender `FromAfter(opts)` and the connection `MgAfter(opts)`; with no options the client has the default sender and no Mailgun connection |
| Mail.Client.Apply | email/mailgun.go:64-77 | `WithSender` sets the formatted sender only; `WithMailgun` sets the connection only |
| AuthReducer.Reduce | client/src/context/auth/authReducer.js:14-53 | per action: the keys it sets and that every other key is kept; which cookie write happens; and it throws exactly on a success action whose payload, or the payload's `data`, is `null` or `undefined` (a `data` of any other kind, `5` say, does not throw) |
| AuthReducer.ClearErrorsIdempotent | client/src/context/auth/authReducer.js:45-49 | clearing errors twice is clearing them once |
| AuthReducer.SignOutIdempotent | client/src/context/auth/authReducer.js:33-44 | two sign-outs leave the state of one, and a failed log-in followed by a log-out equals the log-out |
| AuthReducer.LoginWithoutDataThrows | client/src/context/auth/authReducer.js:23-32 | a log-in response without `data` throws a `TypeError` |
| BookReducer.Iterate | client/src/context/book/bookReducer.js:8 | spreading an array gives its items and a string its characters; anything else throws |
| BookReducer.ReplaceById | client/src/context/book/bookReducer.js:37 | the map succeeds iff the callback can read every `id`; it keeps length and order and replaces exactly the elements with the payload's id |
| BookReducer.Reduce | client/src/context/book/bookReducer.js:3-48 | per action: the keys it sets, that every other key is kept, and exactly when `CREATE_BOOK` and `UPDATE_BOOK` throw |
| BookReducer.ClearIdempotent | client/src/context/book/bookReducer.js:22-33 | `CLEAR_BOOK` and `CLEAR_BOOKS` are idempotent |
| BookReducer.ClearBooksThenWriteThrows | client/src/context/book/bookReducer.js:27-39 | after `CLEAR_BOOKS`, both `CREATE_BOOK` and `UPDATE_BOOK` throw |
| BookReducer.UpdateUnknownIdKeepsBooks | client/src/context/book/bookReducer.js:34-39 | an update whose id no book has leaves the list unchanged |

## Left out

- `AllUsers`: its listing is not modelled (a listing query). Its offset arithmetic is the one `Books.Offset` models.
- `ByUserID` and `ByBookID` (books, reviews) and `AllBooks`: same reason.
- `Preload` in `ByUserID` is part of a listing query and is left out with it.
- Fields not modelled:
  - `User.Avatar` and its column default.
  - The `Books` and `Reviews` association fields.
  - `CreatedAt` and `UpdatedAt` of `gorm.Model`; its `DeletedAt` only as whether a row is deleted.
- Soft-deleted rows are never restored or purged in the model.
- Books.BookGorm.ByID: the `Preload("Users")` and `Preload("Reviews")` of `models/books.go:160` are not modelled. Neither name is an exported field of `Book`. Read against gorm v1, where preloading a field the struct lacks is an error, every found book would come back as that error; that reading was not executed, so the model returns the row.
- The id sequence follows PostgreSQL `serial` columns. That is the dialect the source registers. The sequence's own limit and its reset on table truncation are not modelled.
- The reset table is modelled in its simplest form, because `models/pw_reset.go` is not part of this model:
  - `pwResetDB`, its validator and its gorm layer are replaced by `UserDB.PwResetDB`.
  - It stores rows under the HMAC of the token and rejects a duplicate hash.
  - Its `Delete` has no id guard.
- Foreign code is a parameter:
  - bcrypt, HMAC, `rand.RememberToken` and `rand.NBytes` are parameters, not implementations.
  - bcrypt's cost and the encoding of tokens are not modelled.
  - `HashVerifies` and `TokenSound` are hypotheses of the lemmas that need them.
- Users.ToLower: lower-cases ASCII letters only. Go's `strings.ToLower` also lower-cases other Unicode letters.
- Errors.Title: title-cases ASCII letters only, and treats every non-ASCII character as a letter.
- Users.EmailMatches: written out by hand from the pattern. The regexp engine is not modelled.
- Ids are `nat`. `uint` wrap-around is not modelled, and `id <= 0` on a `uint` is read as `id == 0`.
- Books.Offset: works on unbounded integers, without Go's `int` overflow.
- `time.Time` is not modelled: times are integer nanoseconds, and `Sub`'s saturation at the `Duration` range is not modelled.
- `NewUserService`, `NewBookService` and `NewReviewService` are not modelled; the objects are built with constructors. The pepper and HMAC key, read from the environment in the source, are constructor arguments.
- `Welcome` and `ResetPw` (sending mail) are not modelled, nor their texts and URL encoding: that is network I/O.
- The cookie library is left out; the auth reducer returns the cookie write as a value.
- `console.log` in the book reducer: output only.
- AuthReducer.Reduce: a primitive or array payload is taken to have no `data` property, so a success action with one throws before its fields are spread, as in JavaScript; `Js.Value` does not model properties such as an array's `length`.
- BookReducer.ReplaceById: ids are compared by value. That matches `===` for the primitive ids the API returns, not for object ids.
- JavaScript numbers are integers here.
- The HTTP controllers, middleware, logging and the React components are outside the modelled core.

## Findings

| source | as written | input that shows it | evidently intended | confidence | as-written member | corrected member |
|---|---|---|---|---|---|---|
| models/reviews.go:11 | `notes` is unexported, so `encoding/json` never fills it from a request and gorm neither stores nor loads it; `reviewNotesRequired` (models/reviews.go:108-112) then refuses every review that has both ids with `ErrReviewRequired` | a body with `user_id` 1, `book_id` 2 and `notes` "A fine read" | an exported `Notes` field under the JSON key `notes`, so the chain accepts a review with both ids and notes | high; not executed | Reviews.NotesNeverArrive | Reviews.DecodedChain |
