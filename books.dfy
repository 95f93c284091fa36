/** A model of the in-memory book catalogue: a list of book records that the
    request handlers read, append to, overwrite by id and remove from. */
module Books {

  datatype Option<T> = None | Some(value: T)

  /** A stored catalogue record. */
  datatype Book = Book(id: int, title: string, author: string, description: string, rating: int)

  /** A request body. The id is optional: create ignores it, update uses it to
      pick the records to overwrite. */
  datatype BookRequest = BookRequest(id: Option<int>, title: string, author: string, description: string, rating: int)
  {
    /** The field constraints the request model declares. */
    predicate Valid(): (ok: bool)
      ensures ok <==> && 3 <= |title| <= 100 && 3 <= |author| <= 100
                      && 3 <= |description| <= 100 && 1 <= rating <= 5
    {
      ValidFields(title, author, description, rating)
    }
  }

  /** A text field holds between 3 and 100 characters. */
  predicate ValidText(s: string) {
    3 <= |s| <= 100
  }

  /** The field constraints shared by requests and stored books. */
  predicate ValidFields(title: string, author: string, description: string, rating: int) {
    ValidText(title) && ValidText(author) && ValidText(description) && 1 <= rating <= 5
  }

  /** A stored book meets the same field constraints as a request. */
  predicate WellFormed(b: Book) {
    ValidFields(b.title, b.author, b.description, b.rating)
  }

  predicate AllWellFormed(s: seq<Book>) {
    forall i :: 0 <= i < |s| ==> WellFormed(s[i])
  }

  /** Ids are positive and strictly increasing in list order, hence unique. */
  predicate GoodIds(s: seq<Book>) {
    && (forall i :: 0 <= i < |s| ==> 1 <= s[i].id)
    && (forall i, j :: 0 <= i < j < |s| ==> s[i].id < s[j].id)
  }

  const Deleted: string := "Book deleted successfully"
  const NotFound: string := "Book not found"

  /** The five records the catalogue starts with. */
  const Seed: seq<Book> := [
    Book(1, "title1", "author1", "description1", 5),
    Book(2, "title2", "author2", "description2", 4),
    Book(3, "title3", "author3", "description3", 5),
    Book(4, "title4", "author1", "description4", 2),
    Book(5, "title5", "author3", "description5", 3)
  ]

  /** The record built from a request's fields, carrying the given id. */
  function FromRequest(req: BookRequest, id: int): (b: Book)
    ensures b.id == id
    ensures WellFormed(b) <==> req.Valid()
  {
    Book(id, req.title, req.author, req.description, req.rating)
  }

  /** The id a new book receives: one more than the id of the last record,
      or 1 when the catalogue is empty. */
  function NextId(s: seq<Book>): (r: int)
    ensures GoodIds(s) ==> 1 <= r && forall i :: 0 <= i < |s| ==> s[i].id < r
  {
    if |s| > 0 then s[|s| - 1].id + 1 else 1
  }

  /** The position of the first record with the given id, or |s| when there
      is none. */
  function FirstIndex(s: seq<Book>, id: int): (k: nat)
    ensures k <= |s|
    ensures forall j :: 0 <= j < k ==> s[j].id != id
    ensures k < |s| ==> s[k].id == id
  {
    if s == [] then 0
    else if s[0].id == id then 0
    else 1 + FirstIndex(s[1..], id)
  }

  /** The records whose rating equals `rating`, in list order. */
  function WithRating(s: seq<Book>, rating: int): (r: seq<Book>)
    ensures |r| <= |s|
    ensures forall b :: b in r ==> b in s && b.rating == rating
  {
    if s == [] then []
    else
      var init := WithRating(s[..|s| - 1], rating);
      if s[|s| - 1].rating == rating then init + [s[|s| - 1]] else init
  }

  /** `a` can be obtained from `b` by deleting elements, keeping the order. */
  ghost predicate IsSubsequence(a: seq<Book>, b: seq<Book>)
    decreases |b|
  {
    if a == [] then true
    else if b == [] then false
    else (a[|a| - 1] == b[|b| - 1] && IsSubsequence(a[..|a| - 1], b[..|b| - 1]))
         || IsSubsequence(a, b[..|b| - 1])
  }

  /** One record after an update with `req`: overwritten when the request's id
      equals the record's id, untouched otherwise. */
  function UpdatedRecord(b: Book, req: BookRequest): (r: Book)
    ensures r.id == b.id
    ensures req.id == Some(b.id) ==>
      r.title == req.title && r.author == req.author && r.description == req.description && r.rating == req.rating
    ensures req.id != Some(b.id) ==> r == b
  {
    if req.id == Some(b.id) then FromRequest(req, b.id) else b
  }

  /** The catalogue after an update with `req`. */
  function Replaced(s: seq<Book>, req: BookRequest): (r: seq<Book>)
    ensures |r| == |s|
    ensures forall i :: 0 <= i < |s| ==> r[i].id == s[i].id
  {
    seq(|s|, i requires 0 <= i < |s| => UpdatedRecord(s[i], req))
  }

  /** The catalogue with the element at `k` removed. */
  function RemoveAt(s: seq<Book>, k: nat): (r: seq<Book>)
    requires k < |s|
    ensures |r| == |s| - 1
    ensures forall i :: 0 <= i < k ==> r[i] == s[i]
    ensures forall i :: k <= i < |r| ==> r[i] == s[i + 1]
  {
    s[..k] + s[k + 1..]
  }

  // ---------------------------------------------------------------------------
  // Properties of the specification functions

  /** The seed list has ids 1..5 in order, meets the field constraints, and
      the next id it hands out is 6. */
  lemma SeedFacts()
    ensures GoodIds(Seed) && AllWellFormed(Seed)
    ensures NextId(Seed) == 6
  {
  }

  /** Rating 0 and 6 are rejected, 1 and 5 accepted. */
  lemma RatingBoundaries(t: string)
    requires ValidText(t)
    ensures !BookRequest(None, t, t, t, 0).Valid() && !BookRequest(None, t, t, t, 6).Valid()
    ensures BookRequest(None, t, t, t, 1).Valid() && BookRequest(None, t, t, t, 5).Valid()
  {
  }

  /** The filtered list holds every matching record as often as the catalogue
      does, and nothing else. */
  lemma {:induction false} WithRatingCount(s: seq<Book>, rating: int, b: Book)
    ensures multiset(WithRating(s, rating))[b] == if b.rating == rating then multiset(s)[b] else 0
  {
    if s != [] {
      var n := |s| - 1;
      WithRatingCount(s[..n], rating, b);
      assert s == s[..n] + [s[n]];
      assert multiset(s) == multiset(s[..n]) + multiset{s[n]};
    }
  }

  /** The filtered list keeps the catalogue's relative order. */
  lemma {:induction false} WithRatingOrdered(s: seq<Book>, rating: int)
    ensures IsSubsequence(WithRating(s, rating), s)
  {
    if s != [] {
      var n := |s| - 1;
      var init := WithRating(s[..n], rating);
      WithRatingOrdered(s[..n], rating);
      if s[n].rating == rating {
        assert (init + [s[n]])[..|init|] == init;
      }
    }
  }

  /** A new book appended with NextId keeps the ids positive and increasing,
      and a lookup of its id finds it at the end. */
  lemma AppendFresh(s: seq<Book>, b: Book)
    requires GoodIds(s) && b.id == NextId(s)
    ensures GoodIds(s + [b])
    ensures FirstIndex(s + [b], b.id) == |s|
  {
    var t := s + [b];
    forall i | 0 <= i < |t| ensures 1 <= t[i].id && (i < |s| ==> t[i] == s[i] && t[i].id < b.id) {
      if i < |s| {
        assert t[i] == s[i];
      }
    }
    forall i, j | 0 <= i < j < |t| ensures t[i].id < t[j].id {
      assert t[i] == s[i];
      if j < |s| {
        assert t[j] == s[j];
      }
    }
  }

  /** An update keeps the ids in place, so it keeps GoodIds. */
  lemma ReplacedKeepsIds(s: seq<Book>, req: BookRequest)
    requires GoodIds(s)
    ensures GoodIds(Replaced(s, req))
  {
  }

  /** An update whose id matches no record changes nothing. */
  lemma ReplacedMissing(s: seq<Book>, req: BookRequest)
    requires forall i :: 0 <= i < |s| ==> req.id != Some(s[i].id)
    ensures Replaced(s, req) == s
  {
  }

  /** After an update of an existing id, a lookup of that id finds the same
      position, now holding exactly the request's fields. */
  lemma UpdateThenRead(s: seq<Book>, req: BookRequest, id: int)
    requires req.id == Some(id) && FirstIndex(s, id) < |s|
    ensures var r := Replaced(s, req);
      FirstIndex(r, id) == FirstIndex(s, id) && r[FirstIndex(r, id)] == FromRequest(req, id)
  {
  }

  /** Removing one record keeps the ids positive and increasing. */
  lemma RemoveKeepsIds(s: seq<Book>, k: nat)
    requires GoodIds(s) && k < |s|
    ensures GoodIds(RemoveAt(s, k))
  {
  }

  /** When ids are unique, deleting the first record with `id` leaves no
      record with that id. */
  lemma DeleteThenMissing(s: seq<Book>, id: int)
    requires GoodIds(s) && FirstIndex(s, id) < |s|
    ensures forall i :: 0 <= i < |s| - 1 ==> RemoveAt(s, FirstIndex(s, id))[i].id != id
  {
  }

  // ---------------------------------------------------------------------------
  // The catalogue and its request handlers

  class Catalogue {
    var books: seq<Book>

    /** The catalogue invariant: ids positive and strictly increasing. */
    ghost predicate Valid()
      reads this
    {
      GoodIds(books)
    }

    /** The catalogue as the service starts it: the seed list. */
    constructor ()
      ensures books == Seed && Valid() && AllWellFormed(books)
    {
      books := Seed;
      SeedFacts();
    }

    /** List all books: the whole catalogue, in order. */
    method ReadAllBooks() returns (r: seq<Book>)
      ensures r == books
    {
      r := books;
    }

    /** Look up a book by id: the first record in list order with that id,
        or nothing when none has it. */
    method ReadBookById(id: int) returns (r: Option<Book>)
      ensures r.None? <==> forall i :: 0 <= i < |books| ==> books[i].id != id
      ensures r.Some? ==> FirstIndex(books, id) < |books| && r.value == books[FirstIndex(books, id)]
      ensures r.Some? ==> r.value.id == id
    {
      var i := 0;
      while i < |books|
        invariant 0 <= i <= |books|
        invariant forall j :: 0 <= j < i ==> books[j].id != id
      {
        if books[i].id == id {
          return Some(books[i]);
        }
        i := i + 1;
      }
      return None;
    }

    /** Filter by rating: exactly the records with that rating, in their
        relative order; empty when none matches. */
    method ReadBooksByRating(rating: int) returns (r: seq<Book>)
      ensures r == WithRating(books, rating)
      ensures forall b :: multiset(r)[b] == if b.rating == rating then multiset(books)[b] else 0
      ensures IsSubsequence(r, books)
    {
      r := [];
      var i := 0;
      while i < |books|
        invariant 0 <= i <= |books|
        invariant r == WithRating(books[..i], rating)
      {
        assert books[..i + 1][..i] == books[..i];
        if books[i].rating == rating {
          r := r + [books[i]];
        }
        i := i + 1;
      }
      assert books[..i] == books;
      forall b ensures multiset(r)[b] == if b.rating == rating then multiset(books)[b] else 0 {
        WithRatingCount(books, rating, b);
      }
      WithRatingOrdered(books, rating);
    }

    /** Build the new record from a request and give it the next id: one more
        than the last record's id, or 1 on an empty catalogue. Whatever id the
        request carried is dropped. */
    method FindBookId(req: BookRequest) returns (b: Book)
      ensures b == FromRequest(req, NextId(books))
      ensures |books| > 0 ==> b.id == books[|books| - 1].id + 1
      ensures |books| == 0 ==> b.id == 1
      ensures Valid() ==> 1 <= b.id && forall i :: 0 <= i < |books| ==> books[i].id < b.id
    {
      b := FromRequest(req, 0);
      if |books| > 0 {
        b := b.(id := books[|books| - 1].id + 1);
      } else {
        b := b.(id := 1);
      }
    }

    /** Create a book: append the request's fields under the next id. */
    method CreateBook(req: BookRequest)
      modifies this
      ensures books == old(books) + [FromRequest(req, NextId(old(books)))]
      ensures old(Valid()) ==> Valid()
      ensures old(Valid()) ==> FirstIndex(books, NextId(old(books))) == |old(books)|
      ensures old(AllWellFormed(books)) && req.Valid() ==> AllWellFormed(books)
    {
      var b := FindBookId(req);
      if Valid() {
        AppendFresh(books, b);
      }
      books := books + [b];
    }

    /** Update a book: every record whose id equals the request's id is
        overwritten by the request's fields; with no match nothing changes. */
    method UpdateBook(req: BookRequest)
      modifies this
      ensures books == Replaced(old(books), req)
      ensures |books| == |old(books)|
      ensures forall i :: 0 <= i < |books| ==>
        books[i] == if req.id == Some(old(books)[i].id) then FromRequest(req, old(books)[i].id) else old(books)[i]
      ensures (forall i :: 0 <= i < |old(books)| ==> req.id != Some(old(books)[i].id)) ==> books == old(books)
      ensures old(Valid()) ==> Valid()
      ensures old(AllWellFormed(books)) && req.Valid() ==> AllWellFormed(books)
    {
      ghost var s := books;
      var i := 0;
      while i < |books|
        invariant 0 <= i <= |books| == |s|
        invariant forall j :: 0 <= j < i ==> books[j] == UpdatedRecord(s[j], req)
        invariant forall j :: i <= j < |books| ==> books[j] == s[j]
      {
        if req.id == Some(books[i].id) {
          books := books[i := FromRequest(req, books[i].id)];
        }
        i := i + 1;
      }
      assert books == Replaced(s, req);
      if forall j :: 0 <= j < |s| ==> req.id != Some(s[j].id) {
        ReplacedMissing(s, req);
      }
      if GoodIds(s) {
        ReplacedKeepsIds(s, req);
      }
    }

    /** Delete a book: remove the first record with the id and report
        success, or leave the catalogue alone and report that it was not
        found. */
    method DeleteBook(id: int) returns (message: string)
      modifies this
      ensures var k := FirstIndex(old(books), id);
        if k < |old(books)| then books == RemoveAt(old(books), k) && message == Deleted
        else books == old(books) && message == NotFound
      ensures old(Valid()) ==> Valid() && forall i :: 0 <= i < |books| ==> books[i].id != id
    {
      var i := 0;
      while i < |books|
        invariant 0 <= i <= |books|
        invariant forall j :: 0 <= j < i ==> books[j].id != id
        invariant books == old(books)
      {
        if books[i].id == id {
          if Valid() {
            RemoveKeepsIds(books, i);
            DeleteThenMissing(books, id);
          }
          books := RemoveAt(books, i);
          return Deleted;
        }
        i := i + 1;
      }
      return NotFound;
    }
  }

  /** A client run over the seed catalogue: create a book, find it, delete
      it, look it up again, then update id 3 and filter by its new rating. */
  method SeedScenario() returns (created: Option<Book>, afterDelete: Option<Book>, updated: Option<Book>, rated: seq<Book>)
    ensures created == Some(Book(6, "title6", "author6", "description6", 3))
    ensures afterDelete == None
    ensures updated == Some(Book(3, "title3", "author3", "description3", 1))
    ensures updated.value in rated
  {
    var c := new Catalogue();
    var request := BookRequest(None, "title6", "author6", "description6", 3);
    c.CreateBook(request);
    assert c.books == Seed + [FromRequest(request, 6)];
    created := c.ReadBookById(6);
    assert c.books[5].id == 6;

    var message := c.DeleteBook(6);
    assert message == Deleted && c.books == Seed;
    afterDelete := c.ReadBookById(6);

    var changed := BookRequest(Some(3), "title3", "author3", "description3", 1);
    c.UpdateBook(changed);
    assert c.books[2] == FromRequest(changed, 3);
    updated := c.ReadBookById(3);
    rated := c.ReadBooksByRating(1);
    assert multiset(rated)[c.books[2]] == multiset(c.books)[c.books[2]];
  }
}
