/** The error values of the models package (models/errors.go): the `modelError`
    and `privateError` string constants, their `Error` text and the
    user-facing `Public` rewriting of a `modelError`. */
module Errors {

  import opened Wrappers

  /** Every error the model can return. The first thirteen constructors are the
      `modelError` constants, the next seven the `privateError` constants; the
      rest stand for errors produced outside the package: gorm's
      record-not-found, a violated unique index, bcrypt's hash/password
      mismatch, and any other foreign error with its text. Go compares errors
      by value, so two errors are the same exactly when they are equal here. */
  datatype Err =
    | ErrNotFound | ErrPasswordIncorrect | ErrEmailRequired | ErrEmailInvalid | ErrEmailTaken
    | ErrPasswordRequired | ErrPasswordTooShort | ErrTitleRequired | ErrBookAuthorRequired
    | ErrBookSummaryRequired | ErrBookCategoryRequired | ErrBookImageRequired | ErrTokenInvalid
    | ErrInvalidID | ErrRememberRequired | ErrRememberTooShort | ErrUserIDRequired
    | ErrBookIDRequired | ErrInvalidRequest | ErrReviewRequired
    | RecordNotFound
    | UniqueViolation
    | HashMismatch
    | Foreign(msg: string)

  /** The error's dynamic type is `modelError` (it has a `Public` method). */
  predicate IsModelError(e: Err)
  {
    e.ErrNotFound? || e.ErrPasswordIncorrect? || e.ErrEmailRequired? || e.ErrEmailInvalid?
    || e.ErrEmailTaken? || e.ErrPasswordRequired? || e.ErrPasswordTooShort? || e.ErrTitleRequired?
    || e.ErrBookAuthorRequired? || e.ErrBookSummaryRequired? || e.ErrBookCategoryRequired?
    || e.ErrBookImageRequired? || e.ErrTokenInvalid?
  }

  /** The error's dynamic type is `privateError`. */
  predicate IsPrivateError(e: Err)
  {
    e.ErrInvalidID? || e.ErrRememberRequired? || e.ErrRememberTooShort? || e.ErrUserIDRequired?
    || e.ErrBookIDRequired? || e.ErrInvalidRequest? || e.ErrReviewRequired?
  }

  const Prefix: string := "models: "

  /** The text each package constant is declared with, after "models: ". */
  function Message(e: Err): (m: string)
    requires IsModelError(e) || IsPrivateError(e)
    ensures |m| > 0
    ensures IsModelError(e) ==> 'a' <= m[0] <= 'z'
  {
    match e
    case ErrNotFound => "resource not found"
    case ErrPasswordIncorrect => "incorrect password provided"
    case ErrEmailRequired => "email address is required"
    case ErrEmailInvalid => "email address is not valid"
    case ErrEmailTaken => "email address is already taken"
    case ErrPasswordRequired => "password is required"
    case ErrPasswordTooShort => "password must be at least 8 characters long"
    case ErrTitleRequired => "book title is required"
    case ErrBookAuthorRequired => "book author is required"
    case ErrBookSummaryRequired => "book summary is required"
    case ErrBookCategoryRequired => "book category is required"
    case ErrBookImageRequired => "book image is required"
    case ErrTokenInvalid => "token provided is not valid"
    case ErrInvalidID => "ID provided was invalid"
    case ErrRememberRequired => "remember token is required"
    case ErrRememberTooShort => "remember token must be at least 32 bytes"
    case ErrUserIDRequired => "user ID is required"
    case ErrBookIDRequired => "book ID is required"
    case ErrInvalidRequest => "request is incomplete/invalid"
    case ErrReviewRequired => "review note is required"
  }

  /** `Error()`: the string the constant is declared with (for the package's own
      errors), or the foreign error's text. */
  function ErrorText(e: Err): (s: string)
    ensures IsModelError(e) || IsPrivateError(e) ==> |s| > |Prefix| && Prefix <= s
  {
    if IsModelError(e) || IsPrivateError(e) then
      var m := Message(e);
      assert (Prefix + m)[..|Prefix|] == Prefix;
      Prefix + m
    else
      match e
      case RecordNotFound => "record not found"
      case UniqueViolation => "pq: duplicate key value violates unique constraint"
      case HashMismatch => "crypto/bcrypt: hashedPassword is not the hash of the given password"
      case Foreign(msg) => msg
      case _ => ""
  }

  // ---------------------------------------------------------------------------
  // strings.Replace(s, old, new, 1)

  /** `pat` occurs in `s` at position `i`. */
  predicate OccursAt(s: string, pat: string, i: nat)
  {
    i + |pat| <= |s| && s[i..i + |pat|] == pat
  }

  /** The position of the first occurrence of `pat` in `s` at or after `from`. */
  function IndexFrom(s: string, pat: string, from: nat): (r: Option<nat>)
    requires from <= |s|
    ensures r.Some? ==> from <= r.value && OccursAt(s, pat, r.value)
    ensures r.Some? ==> forall j :: from <= j < r.value ==> !OccursAt(s, pat, j)
    ensures r.None? ==> forall j :: from <= j <= |s| ==> !OccursAt(s, pat, j)
    decreases |s| - from
  {
    if OccursAt(s, pat, from) then Some(from)
    else if from == |s| then None
    else IndexFrom(s, pat, from + 1)
  }

  /** `strings.Replace(s, pat, rep, 1)` for a non-empty `pat`. */
  function ReplaceFirst(s: string, pat: string, rep: string): (r: string)
  {
    match IndexFrom(s, pat, 0)
    case None => s
    case Some(i) => s[..i] + rep + s[i + |pat|..]
  }

  /** Only the FIRST occurrence is replaced: the text before it has no
      occurrence, the text after it is kept verbatim (further occurrences
      included), and a string without an occurrence is returned unchanged. */
  lemma ReplaceFirstSpec(s: string, pat: string, rep: string)
    ensures (forall j :: 0 <= j <= |s| ==> !OccursAt(s, pat, j)) ==> ReplaceFirst(s, pat, rep) == s
    ensures forall i :: 0 <= i <= |s| && OccursAt(s, pat, i) && (forall j :: 0 <= j < i ==> !OccursAt(s, pat, j))
              ==> ReplaceFirst(s, pat, rep) == s[..i] + rep + s[i + |pat|..]
  {
    var r := IndexFrom(s, pat, 0);
    forall i | 0 <= i <= |s| && OccursAt(s, pat, i) && (forall j :: 0 <= j < i ==> !OccursAt(s, pat, j))
      ensures ReplaceFirst(s, pat, rep) == s[..i] + rep + s[i + |pat|..]
    {
      assert r.Some?;
      assert r.value == i;
    }
  }

  // ---------------------------------------------------------------------------
  // strings.Split(s, " ") and strings.Join(ws, " ")

  /** `strings.Split(s, " ")`: the maximal space-free pieces between single
      spaces, in order; never empty (`Split("")` is `[""]`). */
  function Split(s: string): (ws: seq<string>)
    ensures |ws| >= 1
    ensures forall k :: 0 <= k < |ws| ==> ' ' !in ws[k]
  {
    if s == [] then [""]
    else
      var rest := Split(s[1..]);
      if s[0] == ' ' then [""] + rest
      else [[s[0]] + rest[0]] + rest[1..]
  }

  /** `strings.Join(ws, " ")`. */
  function Join(ws: seq<string>): string
  {
    if ws == [] then ""
    else if |ws| == 1 then ws[0]
    else ws[0] + " " + Join(ws[1..])
  }

  /** Joining the pieces of a split gives back the original string, so the
      pieces and the single-space separators between them are all of it. */
  lemma {:induction false} JoinSplit(s: string)
    ensures Join(Split(s)) == s
  {
    if s != [] {
      var rest := Split(s[1..]);
      JoinSplit(s[1..]);
      if s[0] == ' ' {
        assert Split(s) == [""] + rest;
        assert Join(Split(s)) == "" + " " + Join(rest);
      } else {
        var ws := Split(s);
        assert ws == [[s[0]] + rest[0]] + rest[1..];
        if |rest| == 1 {
          assert Join(ws) == [s[0]] + rest[0];
        } else {
          assert ws[1..] == rest[1..];
          assert Join(ws) == [s[0]] + rest[0] + " " + Join(rest[1..]);
          assert Join(rest) == rest[0] + " " + Join(rest[1..]);
        }
      }
    }
  }

  /** The index of the first space in `s`, or `|s|`. */
  function FirstSpace(s: string): (k: nat)
    ensures k <= |s| && ' ' !in s[..k] && (k < |s| ==> s[k] == ' ')
  {
    if s == [] || s[0] == ' ' then 0 else 1 + FirstSpace(s[1..])
  }

  /** Replacing the first piece of a split by `w` and joining again changes
      only the first word: the text from the first space on is kept. */
  lemma {:induction false} JoinReplaceHead(s: string, w: string)
    ensures Split(s)[0] == s[..FirstSpace(s)]
    ensures Join([w] + Split(s)[1..]) == w + s[FirstSpace(s)..]
  {
    if s == [] {
    } else if s[0] == ' ' {
      var rest := Split(s[1..]);
      assert Split(s)[1..] == rest;
      JoinSplit(s[1..]);
      if |rest| == 1 {
        assert Join([w] + rest) == w + " " + Join(rest);
      } else {
        assert ([w] + rest)[1..] == rest;
      }
    } else {
      var rest := Split(s[1..]);
      JoinReplaceHead(s[1..], w);
      assert Split(s)[1..] == rest[1..];
      assert s[FirstSpace(s)..] == s[1..][FirstSpace(s[1..])..];
    }
  }

  // ---------------------------------------------------------------------------
  // strings.Title, restricted to ASCII

  /** Go's `isSeparator` for ASCII: everything but letters, digits and `_`
      separates words; characters outside ASCII are treated as letters. */
  predicate IsSeparator(c: char)
  {
    c < 128 as char && !('0' <= c <= '9' || 'a' <= c <= 'z' || 'A' <= c <= 'Z' || c == '_')
  }

  function ToTitle(c: char): char
  {
    if 'a' <= c <= 'z' then (c as int - 32) as char else c
  }

  /** `strings.Title`: every letter that starts a word is title-cased. */
  function Title(w: string): (r: string)
    ensures |r| == |w|
  {
    seq(|w|, i requires 0 <= i < |w| => if i == 0 || IsSeparator(w[i - 1]) then ToTitle(w[i]) else w[i])
  }

  /** `modelError.Public()` on the error's text. */
  function PublicText(s: string): string
  {
    var t := ReplaceFirst(s, Prefix, "");
    var split := Split(t);
    Join([Title(split[0])] + split[1..])
  }

  /** `modelError.Public()`. */
  function Public(e: Err): string
    requires IsModelError(e)
  {
    PublicText(ErrorText(e))
  }

  /** `Public` title-cases the first space-separated word of the text with its
      first "models: " removed, and keeps everything from the first space on. */
  lemma PublicFirstWord(s: string)
    ensures var t := ReplaceFirst(s, Prefix, "");
            PublicText(s) == Title(t[..FirstSpace(t)]) + t[FirstSpace(t)..]
  {
    var t := ReplaceFirst(s, Prefix, "");
    JoinReplaceHead(t, Title(Split(t)[0]));
  }

  /** A string that starts with the prefix loses exactly that prefix. */
  lemma ReplacePrefix(s: string)
    requires |s| >= |Prefix| && s[..|Prefix|] == Prefix
    ensures ReplaceFirst(s, Prefix, "") == s[|Prefix|..]
  {
    assert OccursAt(s, Prefix, 0);
  }

  /** For a text "models: " + w + rest, where w is a space-free word and rest
      is empty or starts with a space, `Public` gives Title(w) + rest. */
  lemma PublicOfPrefixed(s: string, w: string, rest: string)
    requires s == Prefix + w + rest
    requires ' ' !in w
    requires rest == [] || rest[0] == ' '
    ensures PublicText(s) == Title(w) + rest
  {
    assert s[..|Prefix|] == Prefix;
    ReplacePrefix(s);
    var t := s[|Prefix|..];
    assert t == w + rest;
    PublicFirstWord(s);
    assert t[..|w|] == w;
    assert t[..FirstSpace(t)] == w && t[FirstSpace(t)..] == rest;
  }

  /** A text that is "models: " followed by a lower-case letter has a `Public`
      form starting with the upper-case version of that letter. */
  lemma PublicCapitalises(s: string)
    requires |s| > |Prefix| && s[..|Prefix|] == Prefix && 'a' <= s[|Prefix|] <= 'z'
    ensures |PublicText(s)| > 0 && PublicText(s)[0] == ToTitle(s[|Prefix|]) && 'A' <= PublicText(s)[0] <= 'Z'
  {
    ReplacePrefix(s);
    var t := s[|Prefix|..];
    PublicFirstWord(s);
    assert t[0] == s[|Prefix|];
    assert FirstSpace(t) > 0;
    assert Title(t[..FirstSpace(t)])[0] == ToTitle(t[0]);
  }

  lemma TitleResource(w: string)
    requires w == "resource"
    ensures Title(w) == "Resource"
  {
    assert Title(w)[0] == 'R';
  }

  lemma PublicNotFoundText(s: string, w: string, rest: string)
    requires s == Prefix + w + rest && w == "resource" && rest == " not found"
    ensures PublicText(s) == "Resource not found"
  {
    PublicOfPrefixed(s, w, rest);
    TitleResource(w);
  }

  /** `ErrNotFound.Public()` is "Resource not found". */
  lemma PublicNotFound(e: Err)
    requires e == ErrNotFound
    ensures Public(e) == "Resource not found"
  {
    PublicNotFoundText(ErrorText(e), "resource", " not found");
  }

  /** Every `modelError` text continues after "models: " with a lower-case letter. */
  lemma ModelTextStartsLower(e: Err)
    requires IsModelError(e)
    ensures 'a' <= ErrorText(e)[|Prefix|] <= 'z'
  {
    assert ErrorText(e)[|Prefix|] == Message(e)[0];
  }

  /** No `modelError` constant's `Public` text starts with "models: ": every
      constant is "models: " followed by a lower-case letter, which `Public`
      strips and capitalises. */
  lemma PublicDropsPrefix(e: Err)
    requires IsModelError(e)
    ensures !(Prefix <= Public(e))
  {
    ModelTextStartsLower(e);
    PublicCapitalises(ErrorText(e));
  }
}
