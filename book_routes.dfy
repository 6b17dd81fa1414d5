/** Editing a book (`book_update_route` in src/routes/book.py). The route
    fills every field the client left falsy from the stored book, refuses a
    result with more copies available than in total, and writes the merged
    update whole. */
module BookRoutes {
  import opened Tables
  import opened Http
  import opened Models
  import opened Store

  /** Python's truthiness of an optional text field: None and "" are falsy. */
  predicate GivenText(f: Option<string>) {
    f.Some? && f.value != ""
  }

  /** Python's truthiness of an optional count: None and 0 are falsy. */
  predicate GivenCount(f: Option<nat>) {
    f.Some? && f.value != 0
  }

  /** The update after the route's `if not book.<field>` assignments: every
      field is given; a truthy field keeps the client's value and a falsy one
      takes the stored book's. */
  function MergeBookUpdate(stored: Book, u: BookUpdate): (m: BookUpdate)
    ensures HasFields(m)
    ensures m.title == Some(if GivenText(u.title) then u.title.value else stored.title)
    ensures m.author == Some(if GivenText(u.author) then u.author.value else stored.author)
    ensures m.category == Some(if GivenText(u.category) then u.category.value else stored.category)
    ensures m.totalCount == Some(if GivenCount(u.totalCount) then u.totalCount.value else stored.totalCount)
    ensures m.availableCount == Some(if GivenCount(u.availableCount) then u.availableCount.value else stored.availableCount)
  {
    BookUpdate(
      Some(if GivenText(u.title) then u.title.value else stored.title),
      Some(if GivenText(u.author) then u.author.value else stored.author),
      Some(if GivenText(u.category) then u.category.value else stored.category),
      Some(if GivenCount(u.totalCount) then u.totalCount.value else stored.totalCount),
      Some(if GivenCount(u.availableCount) then u.availableCount.value else stored.availableCount))
  }

  /** A body with no field set (whose counts default to 0) rewrites the
      book exactly as it was. */
  lemma EmptyUpdateKeepsBook(stored: Book)
    ensures ApplyBookUpdate(stored, MergeBookUpdate(stored, DefaultBookUpdate())) == stored
  {
  }

  /** A count can never be set to 0 through this route: a 0 is replaced by
      the stored count. */
  lemma ZeroCountIsNotWritten(stored: Book, u: BookUpdate)
    requires u.availableCount == Some(0)
    ensures ApplyBookUpdate(stored, MergeBookUpdate(stored, u)).availableCount == stored.availableCount
  {
  }

  /** What `PUT /book/{id}` does, the `search_book` uniqueness query aside. */
  function BookUpdateEffect(db: Db, caller: Caller, id: Id, u: BookUpdate): (o: Outcome<Book>)
    ensures o.result == Err(Forbidden) <==> !IsElevated(caller.role)
    ensures IsElevated(caller.role) ==> (o.result == Err(NotFound) <==> BookIndex(db.books, id).None?)
    // the bounds check runs on the merged values, before any write
    ensures IsElevated(caller.role) && BookIndex(db.books, id).Some? ==>
      var m := MergeBookUpdate(db.books[BookIndex(db.books, id).value], u);
      (o.result == Err(BadRequest) <==> m.totalCount.value < m.availableCount.value)
    ensures o.result.Err? ==> o.db == db
    ensures o.result != Err(ServerError)
    // success: the stored book becomes the merged one, which never has more
    // copies available than in total
    ensures o.result.Ok? ==>
      && BookIndex(db.books, id).Some?
      && var i := BookIndex(db.books, id).value;
      && var b := o.result.value;
      && b.id == id
      && b.availableCount <= b.totalCount
      && b == ApplyBookUpdate(db.books[i], MergeBookUpdate(db.books[i], u))
      && o.db == db.(books := db.books[i := b])
  {
    if !IsElevated(caller.role) then Outcome(db, Err(Forbidden))
    else match BookIndex(db.books, id)
      case None => Outcome(db, Err(NotFound))
      case Some(i) =>
        var m := MergeBookUpdate(db.books[i], u);
        if m.totalCount.value < m.availableCount.value then Outcome(db, Err(BadRequest))
        else
          var b := ApplyBookUpdate(db.books[i], m);
          Outcome(db.(books := db.books[i := b]), Ok(b))
  }

  /** `update_book` with an update that sets every field, on the book stored
      at position `i`. */
  method WriteBook(lib: Library, i: nat, m: BookUpdate) returns (r: Result<Book>)
    requires lib.Valid() && i < |lib.books| && HasFields(m)
    modifies lib
    ensures lib.Valid()
    ensures lib.Snapshot() == old(lib.Snapshot()).(books := old(lib.books)[i := ApplyBookUpdate(old(lib.books)[i], m)])
    ensures r == Ok(ApplyBookUpdate(old(lib.books)[i], m))
  {
    BookIndexOf(lib.books, lib.nextId, i);
    r := lib.UpdateBook(lib.books[i].id, m);
    BookIndexOf(lib.books, lib.nextId, i);
  }

  /** `book_update_route`. The client's body is completed field by field
      from the stored book before the check and the write. */
  method BookUpdateRoute(lib: Library, caller: Caller, id: Id, book: BookUpdate) returns (r: Result<Book>)
    requires lib.Valid()
    modifies lib
    ensures lib.Valid()
    ensures lib.Snapshot() == BookUpdateEffect(old(lib.Snapshot()), caller, id, book).db
    ensures r == BookUpdateEffect(old(lib.Snapshot()), caller, id, book).result
  {
    if !IsElevated(caller.role) {
      return Err(Forbidden);
    }
    var i := BookIndex(lib.books, id);
    if i.None? {
      return Err(NotFound);
    }
    var stored := lib.books[i.value];
    var u := book;
    if !GivenText(u.title) {
      u := u.(title := Some(stored.title));
    }
    if !GivenText(u.author) {
      u := u.(author := Some(stored.author));
    }
    if !GivenText(u.category) {
      u := u.(category := Some(stored.category));
    }
    if !GivenCount(u.totalCount) {
      u := u.(totalCount := Some(stored.totalCount));
    }
    if !GivenCount(u.availableCount) {
      u := u.(availableCount := Some(stored.availableCount));
    }
    assert u == MergeBookUpdate(stored, book);
    if u.totalCount.value < u.availableCount.value {
      return Err(BadRequest);
    }
    r := WriteBook(lib, i.value, u);
  }
}
