/** Book records and the pure queries the bookshelf handlers run over the
    shared, ordered collection of records (src/handler.js). */
module Books {

  datatype Option<T> = None | Some(value: T)

  /** One stored record. `finished` is derived once, when the record is created. */
  datatype Book = Book(
    id: string,
    name: string,
    year: int,
    author: string,
    summary: string,
    publisher: string,
    pageCount: int,
    readPage: int,
    finished: bool,
    reading: bool,
    insertedAt: string,
    updatedAt: string)

  /** The fields a client sends to create or edit a book. An empty `name`
      stands for a name that is missing or empty. */
  datatype Payload = Payload(
    name: string,
    year: int,
    author: string,
    summary: string,
    publisher: string,
    pageCount: int,
    readPage: int,
    reading: bool)

  /** The projection of a record that the list handler returns. */
  datatype Summary = Summary(id: string, name: string, publisher: string)

  /** Query parameters of the list handler; "" stands for an absent parameter. */
  datatype Query = Query(name: string, reading: string, finished: string)

  /** Why a handler answers with a failure. */
  datatype Failure =
    | MissingPayload     // create without a body (400)
    | MissingName        // name missing or empty (400)
    | ReadPageTooLarge   // readPage > pageCount (400)
    | NotAdded           // the record is not found right after the push (400)
    | NotFound           // no record with the requested id (404)
    | ServerError        // edit without a body: destructuring it throws (500)

  // ---------------------------------------------------------------------
  // Validation and record construction
  // ---------------------------------------------------------------------

  /** A record the store may hold: it has a name and its pages are consistent. */
  predicate WellFormed(b: Book) {
    b.name != "" && b.readPage <= b.pageCount
  }

  /** The payload checks shared by create and edit: the name first, then the pages. */
  function Validate(p: Payload): (r: Option<Failure>)
    ensures r == None <==> p.name != "" && p.readPage <= p.pageCount
    ensures r == Some(MissingName) <==> p.name == ""
    ensures r == Some(ReadPageTooLarge) <==> p.name != "" && p.readPage > p.pageCount
  {
    if p.name == "" then Some(MissingName)
    else if p.readPage > p.pageCount then Some(ReadPageTooLarge)
    else None
  }

  /** The create handler's checks: a missing body, then the payload checks. */
  function AddRejection(payload: Option<Payload>): (r: Option<Failure>)
    ensures payload == None ==> r == Some(MissingPayload)
    ensures payload != None ==> r == Validate(payload.value)
    ensures r != Some(NotFound) && r != Some(NotAdded) && r != Some(ServerError)
  {
    match payload
    case None => Some(MissingPayload)
    case Some(p) => Validate(p)
  }

  /** The record holds every field the payload supplies. */
  predicate CarriesPayload(b: Book, p: Payload) {
    b.name == p.name && b.year == p.year && b.author == p.author &&
    b.summary == p.summary && b.publisher == p.publisher &&
    b.pageCount == p.pageCount && b.readPage == p.readPage && b.reading == p.reading
  }

  /** The record the create handler appends, stamped with `now`. */
  function NewBook(id: string, p: Payload, now: string): (r: Book)
    ensures r.id == id && CarriesPayload(r, p)
    ensures r.insertedAt == now && r.updatedAt == r.insertedAt
    ensures r.finished <==> p.pageCount == p.readPage
    ensures Validate(p) == None ==> WellFormed(r)
  {
    Book(id, p.name, p.year, p.author, p.summary, p.publisher,
         p.pageCount, p.readPage, p.pageCount == p.readPage, p.reading, now, now)
  }

  /** The record the edit handler writes over `b`: the payload's fields and a
      fresh `updatedAt`; `id`, `insertedAt` and `finished` stay as they were. */
  function Edited(b: Book, p: Payload, now: string): (r: Book)
    ensures r.id == b.id && r.insertedAt == b.insertedAt && r.finished == b.finished
    ensures CarriesPayload(r, p) && r.updatedAt == now
    ensures Validate(p) == None ==> WellFormed(r)
  {
    b.(name := p.name, year := p.year, author := p.author, summary := p.summary,
       publisher := p.publisher, pageCount := p.pageCount, readPage := p.readPage,
       reading := p.reading, updatedAt := now)
  }

  // ---------------------------------------------------------------------
  // Name matching: lower-casing and substring search
  // ---------------------------------------------------------------------

  /** Lower-casing of one character, on the ASCII letters only. */
  function LowerChar(c: char): char {
    if 'A' <= c <= 'Z' then (c as int + 32) as char else c
  }

  function Lower(s: string): (r: string)
    ensures |r| == |s|
    ensures forall i :: 0 <= i < |s| ==> r[i] == LowerChar(s[i])
  {
    if s == [] then [] else [LowerChar(s[0])] + Lower(s[1..])
  }

  lemma LowerIdempotent(s: string)
    ensures Lower(Lower(s)) == Lower(s)
  {
  }

  /** `sub` occurs in `s` starting at position `i`. */
  predicate OccursAt(s: string, sub: string, i: nat) {
    i + |sub| <= |s| && s[i..i + |sub|] == sub
  }

  /** Substring search, as a scan over the suffixes of `s`. */
  function Contains(s: string, sub: string): (r: bool)
    ensures sub <= s ==> r
    ensures r ==> |sub| <= |s|
    decreases |s|
  {
    sub <= s || (s != [] && Contains(s[1..], sub))
  }

  lemma {:induction false} ContainsIffOccurs(s: string, sub: string)
    ensures Contains(s, sub) <==> exists i: nat :: OccursAt(s, sub, i)
    decreases |s|
  {
    if sub <= s {
      assert OccursAt(s, sub, 0);
    } else if s != [] {
      ContainsIffOccurs(s[1..], sub);
      forall i: nat
        ensures OccursAt(s, sub, i) <==> i > 0 && OccursAt(s[1..], sub, i - 1)
      {
        if i > 0 && i + |sub| <= |s| {
          assert s[1..][i - 1..i - 1 + |sub|] == s[i..i + |sub|];
        }
      }
      if Contains(s[1..], sub) {
        var j: nat :| OccursAt(s[1..], sub, j);
        assert OccursAt(s, sub, j + 1);
      }
    }
  }

  // ---------------------------------------------------------------------
  // Filtering, projection and lookup
  // ---------------------------------------------------------------------

  /** The callbacks the handlers pass to `filter` and `findIndex`. */
  datatype Criterion =
    | NameHas(query: string)
    | ReadingIs(reading: bool)
    | FinishedIs(finished: bool)
    | IdIs(id: string)

  /** Whether the callback keeps `b`. The name callback keeps a record when
      the lower-cased query occurs in its lower-cased name (see NameFilterAt),
      so lower-casing the query first changes nothing, and a query longer
      than the name keeps nothing. */
  function Keeps(c: Criterion, b: Book): (r: bool)
    ensures c.NameHas? ==> (r <==> Contains(Lower(b.name), Lower(Lower(c.query))))
    ensures c.NameHas? && |c.query| > |b.name| ==> !r
  {
    match c
    case NameHas(q) =>
      LowerIdempotent(q);
      Contains(Lower(b.name), Lower(q))
    case ReadingIs(flag) => b.reading == flag
    case FinishedIs(flag) => b.finished == flag
    case IdIs(id) => b.id == id
  }

  /** The records of `s` that `c` keeps, in their order in `s`. */
  function Filter(s: seq<Book>, c: Criterion): (r: seq<Book>)
    ensures |r| <= |s|
    ensures forall b :: b in r <==> b in s && Keeps(c, b)
  {
    if s == [] then []
    else (if Keeps(c, s[0]) then [s[0]] else []) + Filter(s[1..], c)
  }

  /** `a` is `s` with some elements dropped, the rest in their order. */
  predicate IsSubsequence(a: seq<Book>, s: seq<Book>)
    decreases |s|
  {
    if a == [] then true
    else if s == [] then false
    else if a[0] == s[0] then IsSubsequence(a[1..], s[1..])
    else IsSubsequence(a, s[1..])
  }

  lemma {:induction false} SubsequenceReflexive(s: seq<Book>)
    ensures IsSubsequence(s, s)
    decreases |s|
  {
    if s != [] {
      SubsequenceReflexive(s[1..]);
    }
  }

  lemma {:induction false} FilterIsSubsequence(s: seq<Book>, c: Criterion)
    ensures IsSubsequence(Filter(s, c), s)
    decreases |s|
  {
    if s != [] {
      FilterIsSubsequence(s[1..], c);
      if Keeps(c, s[0]) {
        assert Filter(s, c)[1..] == Filter(s[1..], c);
      } else {
        var rest := Filter(s[1..], c);
        assert Filter(s, c) == rest;
        assert rest != [] ==> rest[0] in rest && Keeps(c, rest[0]);
      }
    }
  }

  function Summarize(b: Book): Summary {
    Summary(b.id, b.name, b.publisher)
  }

  /** The `{id, name, publisher}` projection of each record, in order. */
  function Project(s: seq<Book>): (r: seq<Summary>)
    ensures |r| == |s|
    ensures forall i :: 0 <= i < |s| ==> r[i] == Summarize(s[i])
  {
    if s == [] then [] else [Summarize(s[0])] + Project(s[1..])
  }

  /** The records the list handler reports for `q`. Every filter starts again
      from the whole collection, so the last parameter present, in the order
      name, reading, finished, decides alone. */
  function Selected(s: seq<Book>, q: Query): (r: seq<Book>)
    ensures |r| <= |s|
    ensures forall b :: b in r ==> b in s
  {
    if q.finished != "" then Filter(s, FinishedIs(q.finished == "1"))
    else if q.reading != "" then Filter(s, ReadingIs(q.reading == "1"))
    else if q.name != "" then Filter(s, NameHas(q.name))
    else s
  }

  /** Listing reports an order-preserving subsequence of the collection. */
  lemma SelectedIsSubsequence(s: seq<Book>, q: Query)
    ensures IsSubsequence(Selected(s, q), s)
  {
    if q.finished != "" {
      FilterIsSubsequence(s, FinishedIs(q.finished == "1"));
    } else if q.reading != "" {
      FilterIsSubsequence(s, ReadingIs(q.reading == "1"));
    } else if q.name != "" {
      FilterIsSubsequence(s, NameHas(q.name));
    } else {
      SubsequenceReflexive(s);
    }
  }

  /** With `finished` present, the result is exactly the records whose
      `finished` flag is `finished == "1"`, whatever `name` and `reading` say. */
  lemma FinishedFilterWins(s: seq<Book>, q: Query, name: string, reading: string)
    requires q.finished != ""
    ensures Selected(s, q) == Selected(s, Query(name, reading, q.finished))
    ensures forall b :: b in Selected(s, q) <==> b in s && b.finished == (q.finished == "1")
  {
  }

  /** With only `reading` present among the last two, it decides, whatever `name` says. */
  lemma ReadingFilterWins(s: seq<Book>, q: Query, name: string)
    requires q.finished == "" && q.reading != ""
    ensures Selected(s, q) == Selected(s, Query(name, q.reading, ""))
    ensures forall b :: b in Selected(s, q) <==> b in s && b.reading == (q.reading == "1")
  {
  }

  /** With only `name` present, the result is the records whose lower-cased
      name contains the lower-cased query. */
  lemma NameFilterAlone(s: seq<Book>, q: Query)
    requires q.finished == "" && q.reading == "" && q.name != ""
    ensures forall b :: b in Selected(s, q) <==>
      b in s && exists i: nat :: OccursAt(Lower(b.name), Lower(q.name), i)
  {
    forall b
      ensures b in Selected(s, q) <==>
        b in s && exists i: nat :: OccursAt(Lower(b.name), Lower(q.name), i)
    {
      NameFilterAt(s, q, b);
    }
  }

  lemma NameFilterAt(s: seq<Book>, q: Query, b: Book)
    requires q.finished == "" && q.reading == "" && q.name != ""
    ensures b in Selected(s, q) <==>
      b in s && exists i: nat :: OccursAt(Lower(b.name), Lower(q.name), i)
  {
    ContainsIffOccurs(Lower(b.name), Lower(q.name));
    assert b in Selected(s, q) <==> b in s && Contains(Lower(b.name), Lower(q.name));
    assert Contains(Lower(b.name), Lower(q.name)) <==>
      exists i: nat :: OccursAt(Lower(b.name), Lower(q.name), i);
  }

  /** Name matching ignores the case of the query. */
  lemma NameMatchIgnoresQueryCase(b: Book, q: string)
    ensures Keeps(NameHas(q), b) <==> Keeps(NameHas(Lower(q)), b)
  {
  }

  /** With no parameter present every record is listed, in order. */
  lemma NoFilterListsAll(s: seq<Book>)
    ensures Project(Selected(s, Query("", "", ""))) == Project(s)
  {
  }

  /** The two-record example: `name=A&finished=1` reports the finished record
      B only, not the intersection of both filters (which is empty). */
  lemma PrecedenceExample(a: Book, b: Book)
    requires a.name == "A" && a.reading && !a.finished
    requires b.name == "B" && !b.reading && b.finished
    ensures Selected([a, b], Query("A", "", "1")) == [b]
    ensures Filter(Filter([a, b], NameHas("A")), FinishedIs(true)) == []
  {
    assert Lower("A") == "a" && Lower("B") == "b";
    assert Contains("a", "a");
    assert !Contains("b", "a") by {
      assert Contains("b", "a") == ("a" <= "b" || Contains("", "a"));
    }
    assert [a, b][1..] == [b] && [b][1..] == [];
    assert Filter([b], FinishedIs(true)) == [b] + Filter([], FinishedIs(true));
    assert Filter([a, b], FinishedIs(true)) == Filter([b], FinishedIs(true));
    assert Filter([b], NameHas("A")) == Filter([], NameHas("A"));
    assert Filter([a, b], NameHas("A")) == [a] + Filter([b], NameHas("A"));
  }

  /** Index of the first record with this id, -1 when there is none (`findIndex`). */
  function FirstIndex(s: seq<Book>, id: string): (r: int)
    ensures -1 <= r < |s|
    ensures r == -1 <==> forall j :: 0 <= j < |s| ==> s[j].id != id
    ensures r >= 0 ==> s[r].id == id && forall j :: 0 <= j < r ==> s[j].id != id
  {
    if s == [] then -1
    else if s[0].id == id then 0
    else
      var k := FirstIndex(s[1..], id);
      if k == -1 then -1 else k + 1
  }

  /** The first record kept by the id filter is the one `findIndex` finds. */
  lemma {:induction false} IdFilterHead(s: seq<Book>, id: string)
    ensures FirstIndex(s, id) == -1 <==> Filter(s, IdIs(id)) == []
    ensures FirstIndex(s, id) >= 0 ==> Filter(s, IdIs(id))[0] == s[FirstIndex(s, id)]
    decreases |s|
  {
    if s != [] && s[0].id != id {
      IdFilterHead(s[1..], id);
      assert Filter(s, IdIs(id)) == Filter(s[1..], IdIs(id));
    }
  }

  /** The lookup of the fetch handler: the first element of the id filter. */
  function Lookup(s: seq<Book>, id: string): (r: Option<Book>)
    ensures r == None <==> forall b :: b in s ==> b.id != id
    ensures r != None ==> r.value.id == id && r.value == s[FirstIndex(s, id)]
  {
    IdFilterHead(s, id);
    var matches := Filter(s, IdIs(id));
    if matches == [] then None else Some(matches[0])
  }

  // ---------------------------------------------------------------------
  // The store invariant and the updates that keep it
  // ---------------------------------------------------------------------

  predicate UniqueIds(s: seq<Book>) {
    forall i, j :: 0 <= i < j < |s| ==> s[i].id != s[j].id
  }

  /** What every successful update keeps: distinct ids and well-formed records. */
  predicate StoreInvariant(s: seq<Book>) {
    UniqueIds(s) && forall i :: 0 <= i < |s| ==> WellFormed(s[i])
  }

  /** `s` without its element at `i` (`splice(i, 1)`). */
  function Removed(s: seq<Book>, i: nat): (r: seq<Book>)
    requires i < |s|
    ensures |r| == |s| - 1
    ensures forall j :: 0 <= j < i ==> r[j] == s[j]
    ensures forall j :: i <= j < |r| ==> r[j] == s[j + 1]
  {
    s[..i] + s[i + 1..]
  }

  lemma {:induction false} DropHeadIsSubsequence(s: seq<Book>)
    requires s != []
    ensures IsSubsequence(s[1..], s)
    decreases |s|
  {
    if |s| > 1 {
      if s[1] == s[0] {
        DropHeadIsSubsequence(s[1..]);
      } else {
        SubsequenceReflexive(s[1..]);
      }
    }
  }

  /** Removing one element keeps the others in their relative order. */
  lemma {:induction false} RemovedIsSubsequence(s: seq<Book>, i: nat)
    requires i < |s|
    ensures IsSubsequence(Removed(s, i), s)
    decreases i
  {
    if i == 0 {
      assert Removed(s, 0) == s[1..];
      DropHeadIsSubsequence(s);
    } else {
      RemovedIsSubsequence(s[1..], i - 1);
      assert Removed(s, i)[1..] == Removed(s[1..], i - 1);
    }
  }

  /** Appending a well-formed record with a fresh id keeps the invariant, and
      the fetch handler then finds exactly that record. */
  lemma AppendFresh(s: seq<Book>, b: Book)
    requires StoreInvariant(s) && WellFormed(b)
    requires forall x :: x in s ==> x.id != b.id
    ensures StoreInvariant(s + [b])
    ensures FirstIndex(s + [b], b.id) == |s|
    ensures Lookup(s + [b], b.id) == Some(b)
  {
    var t := s + [b];
    forall i, j | 0 <= i < j < |t| ensures t[i].id != t[j].id {
      assert t[i] == s[i];
      if j == |s| {
        assert s[i] in s;
      } else {
        assert t[j] == s[j];
      }
    }
    assert t[|s|].id == b.id;
  }

  /** Deleting the first record with `id` keeps the invariant and the order
      of the others, and leaves no record with `id`: a second delete fails. */
  lemma RemoveFirst(s: seq<Book>, id: string)
    requires StoreInvariant(s) && FirstIndex(s, id) >= 0
    ensures StoreInvariant(Removed(s, FirstIndex(s, id)))
    ensures IsSubsequence(Removed(s, FirstIndex(s, id)), s)
    ensures FirstIndex(Removed(s, FirstIndex(s, id)), id) == -1
  {
    var k := FirstIndex(s, id);
    var r := Removed(s, k);
    RemovedIsSubsequence(s, k);
    forall i, j | 0 <= i < j < |r| ensures r[i].id != r[j].id {
      var i', j' := if i < k then i else i + 1, if j < k then j else j + 1;
      assert r[i] == s[i'] && r[j] == s[j'] && i' < j';
    }
    forall j | 0 <= j < |r| ensures r[j].id != id {
      var j' := if j < k then j else j + 1;
      assert r[j] == s[j'] && j' != k;
      assert k < j' ==> s[k].id != s[j'].id;
    }
  }

  /** Overwriting the first record with `id` by its edited version keeps
      the invariant when the payload is valid. */
  lemma ReplaceFirst(s: seq<Book>, id: string, p: Payload, now: string)
    requires StoreInvariant(s) && FirstIndex(s, id) >= 0 && Validate(p) == None
    ensures var k := FirstIndex(s, id);
      StoreInvariant(s[k := Edited(s[k], p, now)])
  {
  }
}
