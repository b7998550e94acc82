/** The five request handlers of src/handler.js, acting on one shared,
    ordered collection of book records held by a store object. */
module Handler {
  import opened Books

  /** A handler's answer: the status code plus the payload it carries. */
  datatype Response =
    | Created(bookId: string)           // 201
    | Listed(books: seq<Summary>)       // 200
    | Found(book: Book)                 // 200
    | Updated                           // 200
    | Deleted                           // 200
    | Fail(failure: Failure)            // 400, 404 or 500
  {
    /** The HTTP status: 201 on create, 200 on any other success, and
        400, 404 or 500 exactly on a failure. */
    function Code(): (code: int)
      ensures code == 200 || code == 201 || code == 400 || code == 404 || code == 500
      ensures code >= 400 <==> Fail?
      ensures code == 201 <==> Created?
      ensures code == 404 <==> this == Fail(NotFound)
      ensures code == 500 <==> this == Fail(ServerError)
    {
      match this
      case Created(_) => 201
      case Fail(NotFound) => 404
      case Fail(ServerError) => 500
      case Fail(_) => 400
      case _ => 200
    }
  }

  /** The shared collection (`require('./books')`), which starts empty. */
  class BookStore {
    var books: seq<Book>

    ghost predicate Valid()
      reads this
    {
      StoreInvariant(books)
    }

    constructor ()
      ensures Valid() && books == []
    {
      books := [];
    }

    /** `findIndex` with the id callback: the first record with `id`, or -1. */
    method FindIndex(id: string) returns (index: int)
      ensures index == FirstIndex(books, id)
    {
      var i := 0;
      while i < |books|
        invariant 0 <= i <= |books|
        invariant forall j :: 0 <= j < i ==> books[j].id != id
      {
        if books[i].id == id {
          return i;
        }
        i := i + 1;
      }
      return -1;
    }

    /** POST /books. The id and the timestamp come from outside; the id is
        one no stored record has. */
    method AddBook(payload: Option<Payload>, id: string, now: string) returns (r: Response)
      requires Valid()
      requires forall b :: b in books ==> b.id != id
      modifies this
      ensures Valid()
      ensures AddRejection(payload) != None ==>
        r == Fail(AddRejection(payload).value) && books == old(books)
      ensures AddRejection(payload) == None ==>
        r == Created(id) && books == old(books) + [NewBook(id, payload.value, now)]
    {
      if payload == None {
        return Fail(MissingPayload);
      }
      var p := payload.value;
      if p.name == "" {
        return Fail(MissingName);
      }
      if p.readPage > p.pageCount {
        return Fail(ReadPageTooLarge);
      }
      var newBook := NewBook(id, p, now);
      AppendFresh(books, newBook);
      books := books + [newBook];
      // the check right after the push, which therefore always succeeds
      var isSuccess := exists b :: b in books && b.id == id;
      if isSuccess {
        r := Created(id);
      } else {
        assert false;
        r := Fail(NotAdded);
      }
    }

    /** GET /books. Each filter present is applied to the whole collection
        and replaces the previous result. */
    method GetAllBooks(query: Query) returns (r: Response)
      ensures r == Listed(Project(Selected(books, query)))
    {
      var filtered := books;
      if query.name != "" {
        filtered := Filter(books, NameHas(query.name));
      }
      if query.reading != "" {
        filtered := Filter(books, ReadingIs(query.reading == "1"));
      }
      if query.finished != "" {
        filtered := Filter(books, FinishedIs(query.finished == "1"));
      }
      r := Listed(Project(filtered));
    }

    /** GET /books/{id}: the first record with `id`, or 404. */
    method GetBookById(id: string) returns (r: Response)
      ensures FirstIndex(books, id) == -1 ==> r == Fail(NotFound)
      ensures FirstIndex(books, id) >= 0 ==> r == Found(books[FirstIndex(books, id)])
    {
      var book := Lookup(books, id);
      if book != None {
        r := Found(book.value);
      } else {
        r := Fail(NotFound);
      }
    }

    /** PUT /books/{id}. The payload is checked before the id is looked up;
        without a body, reading its fields throws and the answer is 500. */
    method EditBookById(id: string, payload: Option<Payload>, now: string) returns (r: Response)
      requires Valid()
      modifies this
      ensures Valid()
      ensures payload == None ==> r == Fail(ServerError) && books == old(books)
      ensures payload != None && Validate(payload.value) != None ==>
        r == Fail(Validate(payload.value).value) && books == old(books)
      ensures payload != None && Validate(payload.value) == None && FirstIndex(old(books), id) == -1 ==>
        r == Fail(NotFound) && books == old(books)
      ensures payload != None && Validate(payload.value) == None && FirstIndex(old(books), id) >= 0 ==>
        var k := FirstIndex(old(books), id);
        r == Updated && books == old(books)[k := Edited(old(books)[k], payload.value, now)]
    {
      if payload == None {
        return Fail(ServerError);
      }
      var p := payload.value;
      if p.name == "" {
        return Fail(MissingName);
      }
      if p.readPage > p.pageCount {
        return Fail(ReadPageTooLarge);
      }
      var index := FindIndex(id);
      if index != -1 {
        ReplaceFirst(books, id, p, now);
        books := books[index := Edited(books[index], p, now)];
        r := Updated;
      } else {
        r := Fail(NotFound);
      }
    }

    /** DELETE /books/{id}: splices out the first record with `id`, or 404. */
    method DeleteBookById(id: string) returns (r: Response)
      requires Valid()
      modifies this
      ensures Valid()
      ensures FirstIndex(old(books), id) == -1 ==> r == Fail(NotFound) && books == old(books)
      ensures FirstIndex(old(books), id) >= 0 ==>
        r == Deleted && books == Removed(old(books), FirstIndex(old(books), id))
    {
      var index := FindIndex(id);
      if index != -1 {
        RemoveFirst(books, id);
        books := Removed(books, index);
        r := Deleted;
      } else {
        r := Fail(NotFound);
      }
    }
  }

  /** A client run on a fresh store: create a finished book, edit its pages
      (which leaves `finished` set), delete it, and fetch it after each step. */
  method DuneLifecycle() returns (added: Response, fetched: Response, edited: Response,
                                  refetched: Response, deleted: Response, gone: Response,
                                  deletedAgain: Response)
    ensures added == Created("dune") && added.Code() == 201
    ensures fetched.Found? && fetched.book.id == "dune" && fetched.book.finished
    ensures edited == Updated
    ensures refetched.Found? && refetched.book.name == "Dune v2"
    ensures refetched.book.readPage == 50 && refetched.book.pageCount == 100
    ensures refetched.book.finished && refetched.book.insertedAt == "t0" && refetched.book.updatedAt == "t1"
    ensures deleted == Deleted
    ensures gone == Fail(NotFound) && gone.Code() == 404
    ensures deletedAgain == Fail(NotFound)
  {
    var store := new BookStore();
    added := store.AddBook(Some(Payload("Dune", 1965, "Herbert", "", "Chilton", 100, 100, false)), "dune", "t0");
    fetched := store.GetBookById("dune");
    edited := store.EditBookById("dune", Some(Payload("Dune v2", 1965, "Herbert", "", "Chilton", 100, 50, true)), "t1");
    refetched := store.GetBookById("dune");
    deleted := store.DeleteBookById("dune");
    gone := store.GetBookById("dune");
    deletedAgain := store.DeleteBookById("dune");
  }
}
