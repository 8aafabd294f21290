/** The book reducer of the client (client/src/context/book/bookReducer.js):
    from the current state object and an action to the next state object.
    Two of its cases read `state.books` as an array and throw a `TypeError`
    when it is not one (after `CLEAR_BOOKS` it is `null`); the model returns
    that exception as a `Failure`. */
module BookReducer {

  import opened Wrappers
  import opened Js

  /** The actions, by type; `Other` is any type the reducer does not list. */
  datatype Action =
    | CreateBook(payload: Value)
    | GetBook(payload: Value)
    | GetBooks(payload: Value)
    | ClearBook
    | ClearBooks
    | UpdateBook(payload: Value)
    | BookError(payload: Value)
    | Other(kind: string, payload: Value)

  const Books := "books"
  const Book := "book"
  const Loading := "loading"
  const Error := "error"

  /** The elements `[...v]` spreads into an array literal: an array's items,
      a string's characters; anything else is not iterable. */
  function Iterate(v: Value): (r: Result<seq<Value>, JsError>)
    ensures v.Arr? ==> r == Success(v.items)
    ensures v.Str? ==> r.Success? && |r.value| == |v.s| && forall i :: 0 <= i < |v.s| ==> r.value[i] == Str([v.s[i]])
    ensures !v.Arr? && !v.Str? ==> r == Failure(TypeError)
  {
    match v
    case Arr(xs) => Success(xs)
    case Str(t) => Success(seq(|t|, i requires 0 <= i < |t| => Str([t[i]])))
    case _ => Failure(TypeError)
  }

  /** The `UPDATE_BOOK` callback can read `book.id` of every element and
      `p.id` of the payload whenever it runs. */
  predicate CallbackReads(books: seq<Value>, p: Value)
  {
    (forall i :: 0 <= i < |books| ==> !Nullish(books[i])) && (books != [] ==> !Nullish(p))
  }

  /** `books.map(book => book.id === p.id ? p : book)`: the callback reads
      `book.id` and then `p.id`, so it throws on a nullish element, or on a
      nullish payload as soon as there is an element. */
  function ReplaceById(books: seq<Value>, p: Value): (r: Result<seq<Value>, JsError>)
    ensures r.Success? <==> CallbackReads(books, p)
    ensures r.Success? ==> |r.value| == |books|
    ensures r.Success? ==> forall i :: 0 <= i < |books| ==>
                             r.value[i] == if Prop(books[i], "id") == Prop(p, "id") then p else books[i]
    ensures r.Failure? ==> r.error == TypeError
  {
    if books == [] then Success([])
    else if Nullish(books[0]) || Nullish(p) then Failure(TypeError)
    else
      var head := if Prop(books[0], "id") == Prop(p, "id") then p else books[0];
      match ReplaceById(books[1..], p)
      case Failure(e) => Failure(e)
      case Success(rest) => Success([head] + rest)
  }

  function Reduce(s: Object, a: Action): (r: Result<Object, JsError>)
    // CREATE_BOOK: the payload goes in front of the old books, which keep their order
    ensures a.CreateBook? && Get(s, Books).Arr? ==>
              r.Success? && AgreeExcept(s, r.value, {Books}) && Books in r.value && r.value[Books].Arr?
              && var ys := r.value[Books].items;
                 |ys| == |Get(s, Books).items| + 1 && ys[0] == a.payload && ys[1..] == Get(s, Books).items
    ensures a.CreateBook? ==> (r.Failure? <==> !Get(s, Books).Arr? && !Get(s, Books).Str?)
    ensures a.CreateBook? && r.Failure? ==> r.error == TypeError
    // GET_BOOK: only the current book changes
    ensures a.GetBook? ==> r.Success? && Has(r.value, Book, a.payload) && AgreeExcept(s, r.value, {Book})
    // GET_BOOKS: the list is replaced and loading ends
    ensures a.GetBooks? ==>
              r.Success? && Has(r.value, Books, a.payload) && Has(r.value, Loading, Bool(false))
              && AgreeExcept(s, r.value, {Books, Loading})
    // CLEAR_BOOK: no current book
    ensures a.ClearBook? ==> r.Success? && Has(r.value, Book, Null) && AgreeExcept(s, r.value, {Book})
    // CLEAR_BOOKS: no book, no list, no error
    ensures a.ClearBooks? ==>
              r.Success? && Has(r.value, Book, Null) && Has(r.value, Books, Null) && Has(r.value, Error, Null)
              && AgreeExcept(s, r.value, {Book, Books, Error})
    // UPDATE_BOOK: throws unless the list is an array the callback can read; otherwise keeps length
    // and order, and replaces each element that has the payload's id by the payload
    ensures a.UpdateBook? ==>
              (r.Success? <==> Get(s, Books).Arr? && CallbackReads(Get(s, Books).items, a.payload))
    ensures a.UpdateBook? && r.Success? ==>
              Get(s, Books).Arr? && CallbackReads(Get(s, Books).items, a.payload)
              && Has(r.value, Loading, Bool(false)) && AgreeExcept(s, r.value, {Books, Loading})
              && Books in r.value && r.value[Books].Arr?
              && var xs, ys := Get(s, Books).items, r.value[Books].items;
                 |ys| == |xs|
                 && forall i :: 0 <= i < |xs| ==>
                      ys[i] == if Prop(xs[i], "id") == Prop(a.payload, "id") then a.payload else xs[i]
    ensures a.UpdateBook? && r.Failure? ==> r.error == TypeError
    // BOOK_ERROR: only the error changes
    ensures a.BookError? ==> r.Success? && Has(r.value, Error, a.payload) && AgreeExcept(s, r.value, {Error})
    // any other action: the state itself
    ensures a.Other? ==> r == Success(s)
  {
    match a
    case CreateBook(p) =>
      (match Iterate(Get(s, Books))
       case Failure(e) => Failure(e)
       case Success(old_) => Success(s[Books := Arr([p] + old_)]))
    case GetBook(p) => Success(s[Book := p])
    case GetBooks(p) => Success(s[Books := p][Loading := Bool(false)])
    case ClearBook => Success(s[Book := Null])
    case ClearBooks => Success(s[Book := Null][Books := Null][Error := Null])
    case UpdateBook(p) =>
      if !Get(s, Books).Arr? then Failure(TypeError)
      else
        (match ReplaceById(Get(s, Books).items, p)
         case Failure(e) => Failure(e)
         case Success(ys) => Success(s[Books := Arr(ys)][Loading := Bool(false)]))
    case BookError(p) => Success(s[Error := p])
    case Other(_, _) => Success(s)
  }

  /** `CLEAR_BOOK` and `CLEAR_BOOKS` are idempotent. */
  lemma ClearIdempotent(s: Object)
    ensures Reduce(Reduce(s, ClearBook).value, ClearBook) == Reduce(s, ClearBook)
    ensures Reduce(Reduce(s, ClearBooks).value, ClearBooks) == Reduce(s, ClearBooks)
  {
    var t := s[Book := Null];
    assert t[Book := Null] == t;
    var u := s[Book := Null][Books := Null][Error := Null];
    assert u[Book := Null][Books := Null][Error := Null] == u;
  }

  /** After `CLEAR_BOOKS` the list is `null`, so a following `CREATE_BOOK` or
      `UPDATE_BOOK` throws. */
  lemma ClearBooksThenWriteThrows(s: Object, p: Value)
    ensures Reduce(Reduce(s, ClearBooks).value, CreateBook(p)) == Failure(TypeError)
    ensures Reduce(Reduce(s, ClearBooks).value, UpdateBook(p)) == Failure(TypeError)
  {
  }

  /** Updating with a payload whose id no book has leaves the list as it was. */
  lemma UpdateUnknownIdKeepsBooks(s: Object, p: Value)
    requires Get(s, Books).Arr? && !Nullish(p)
    requires forall i :: 0 <= i < |Get(s, Books).items| ==>
               !Nullish(Get(s, Books).items[i]) && Prop(Get(s, Books).items[i], "id") != Prop(p, "id")
    ensures Reduce(s, UpdateBook(p)).Success?
    ensures Reduce(s, UpdateBook(p)).value[Books] == Get(s, Books)
  {
    var xs := Get(s, Books).items;
    var ys := Reduce(s, UpdateBook(p)).value[Books].items;
    assert ys == xs;
  }
}
