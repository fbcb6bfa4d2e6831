/**
 * BigLibrary: a large collection kept as a map from each book to its ledger
 * (a BookList), with an IndexedQuery that indexes every book the first time
 * a copy of it is bought. A book whose last copy is lost leaves the map, and
 * so no longer turns up in `find`.
 */
module BigLib {
  import opened Books
  import opened Outcomes
  import opened Sorting
  import opened Query
  import opened Indexing
  import opened Ledger

  /**
   * `ledger` keeps its shelf and checked-out sets apart, holds copies of `b`
   * only, and holds at least one (so it is also a valid BookList).
   */
  ghost predicate LedgerOf(ledger: BookList, b: Book)
    reads ledger
  {
    ledger.available !! ledger.checkedOut && ledger.HoldsOnly(b) && ledger.Copies() != {}
  }

  class BigLibrary {
    var collection: map<Book, BookList>
    const queryStrategy: IndexedQuery

    /** The copies of `b` on the shelf; none for a book the library does not track. */
    ghost function AvailableOf(b: Book): set<BookCopy>
      reads this, collection.Values
    {
      if b in collection then collection[b].available else {}
    }

    /** The copies of `b` checked out; none for a book the library does not track. */
    ghost function CheckedOutOf(b: Book): set<BookCopy>
      reads this, collection.Values
    {
      if b in collection then collection[b].checkedOut else {}
    }

    /** The ledger of `b`, as a set of at most one object: all that an operation on a copy of `b` changes. */
    function LedgerOfBook(b: Book): set<BookList>
      reads this
    {
      if b in collection then {collection[b]} else {}
    }

    /**
     * The rep invariant: every book's ledger holds copies of that book only and
     * at least one of them (so no two books share a ledger); and the index files every
     * tracked book under its keywords and lists no book under a keyword it
     * does not match.
     */
    ghost predicate Valid()
      reads this, queryStrategy, collection.Values
    {
      (forall b | b in collection :: LedgerOf(collection[b], b)) &&
      IndexSound(Keywords, queryStrategy.index, collection.Keys)
    }

    /** Two books never share a ledger, since each ledger holds a copy of its own book. */
    lemma LedgersApart(b1: Book, b2: Book)
      requires b1 in collection && b2 in collection && b1 != b2
      requires LedgerOf(collection[b1], b1) && LedgerOf(collection[b2], b2)
      ensures collection[b1] != collection[b2]
    {
      var c :| c in collection[b1].Copies();
    }

    /** The ledger of `book` is no other book's ledger. */
    lemma LedgerApartFromOthers(book: Book)
      requires Valid() && book in collection
      ensures forall b | b in collection && b != book :: collection[b] != collection[book]
    {
      forall b | b in collection && b != book
        ensures collection[b] != collection[book]
      {
        LedgersApart(b, book);
      }
    }

    constructor ()
      ensures Valid() && collection == map[] && fresh(queryStrategy)
    {
      collection := map[];
      queryStrategy := new IndexedQuery();
      EmptyIndexSound(Keywords);
    }

    /** `buy(book)`: a new copy on the shelf; a book bought for the first time is indexed. */
    method Buy(book: Book) returns (copy: BookCopy)
      requires Valid()
      modifies this, queryStrategy, LedgerOfBook(book)
      ensures Valid()
      ensures fresh(copy) && copy.book == book && copy.condition == Good
      ensures old(book in collection) ==> queryStrategy.index == old(queryStrategy.index)
      ensures old(book !in collection) ==> queryStrategy.index == IndexedWith(old(queryStrategy.index), book, Keywords(book))
      ensures book in collection && collection == old(collection)[book := collection[book]]
      ensures AvailableOf(book) == old(AvailableOf(book)) + {copy}
      ensures CheckedOutOf(book) == old(CheckedOutOf(book))
    {
      copy := new BookCopy(book);
      assert copy !in CheckedOutOf(book);
      Shelve(copy);
    }

    /**
     * The rest of `buy` once the copy exists: the copy goes on the shelf of
     * its book's ledger, which is created, and the book indexed, when the
     * book is new to the library.
     */
    method Shelve(copy: BookCopy)
      requires Valid() && copy !in CheckedOutOf(copy.book)
      modifies this, queryStrategy, LedgerOfBook(copy.book)
      ensures Valid()
      ensures old(copy.book in collection) ==> queryStrategy.index == old(queryStrategy.index)
      ensures old(copy.book !in collection) ==>
        queryStrategy.index == IndexedWith(old(queryStrategy.index), copy.book, Keywords(copy.book))
      ensures copy.book in collection && collection == old(collection)[copy.book := collection[copy.book]]
      ensures AvailableOf(copy.book) == old(AvailableOf(copy.book)) + {copy}
      ensures CheckedOutOf(copy.book) == old(CheckedOutOf(copy.book))
    {
      var book := copy.book;
      ghost var keys := collection.Keys + {book};
      var bl: BookList;
      if book in collection {
        bl := collection[book];
        assert keys == collection.Keys;
        LedgerApartFromOthers(book);
      } else {
        bl := new BookList();
        IndexNew(book);
      }
      assert IndexSound(Keywords, queryStrategy.index, keys);
      bl.Checkin(copy);
      collection := collection[book := bl];
      assert collection.Keys == keys;
    }

    /** The index step of `buy`: a book bought for the first time is filed under its keywords. */
    method IndexNew(book: Book)
      requires IndexSound(Keywords, queryStrategy.index, collection.Keys)
      modifies queryStrategy
      ensures IndexSound(Keywords, queryStrategy.index, collection.Keys + {book})
      ensures queryStrategy.index == IndexedWith(old(queryStrategy.index), book, Keywords(book))
    {
      queryStrategy.Index(book);
      IndexPreservesSound(Keywords, old(queryStrategy.index), collection.Keys, book);
    }

    /**
     * `checkout(copy)`: the ledger of the copy's book marks it checked out,
     * whether or not it was on the shelf; a copy of an untracked book is a
     * null-reference exception.
     */
    method Checkout(copy: BookCopy) returns (outcome: Outcome)
      requires Valid()
      modifies LedgerOfBook(copy.book)
      ensures Valid()
      ensures copy.book !in collection ==> outcome == Fail(NullReference)
      ensures copy.book in collection ==> outcome == Pass
      ensures AvailableOf(copy.book) == old(AvailableOf(copy.book)) - {copy}
      ensures copy.book in collection ==> CheckedOutOf(copy.book) == old(CheckedOutOf(copy.book)) + {copy}
    {
      var book := copy.book;
      if book !in collection {
        return Fail(NullReference);
      }
      LedgerApartFromOthers(book);
      collection[book].Checkout(copy);
      outcome := Pass;
    }

    /**
     * `checkin(copy)`: the ledger of the copy's book puts it on the shelf,
     * whether or not it was checked out; a copy of an untracked book is a
     * null-reference exception.
     */
    method Checkin(copy: BookCopy) returns (outcome: Outcome)
      requires Valid()
      modifies LedgerOfBook(copy.book)
      ensures Valid()
      ensures copy.book !in collection ==> outcome == Fail(NullReference)
      ensures copy.book in collection ==> outcome == Pass
      ensures copy.book in collection ==> AvailableOf(copy.book) == old(AvailableOf(copy.book)) + {copy}
      ensures CheckedOutOf(copy.book) == old(CheckedOutOf(copy.book)) - {copy}
    {
      var book := copy.book;
      if book !in collection {
        return Fail(NullReference);
      }
      LedgerApartFromOthers(book);
      collection[book].Checkin(copy);
      outcome := Pass;
    }

    /** `allCopies(book)`: the copies on the shelf and out; none for an untracked book. */
    method AllCopies(book: Book) returns (union: set<BookCopy>)
      ensures union == AvailableOf(book) + CheckedOutOf(book)
    {
      union := {};
      if book in collection {
        var available := collection[book].GetAvailable();
        var out := collection[book].GetCheckedOut();
        union := available + out;
      }
    }

    /** `availableCopies(book)`: the copies on the shelf; none for an untracked book. */
    method AvailableCopies(book: Book) returns (r: set<BookCopy>)
      ensures r == AvailableOf(book)
    {
      r := {};
      if book in collection {
        r := collection[book].GetAvailable();
      }
    }

    /** `isAvailable(copy)`: the copy is on the shelf of its book's ledger. */
    function IsAvailable(copy: BookCopy): (r: bool)
      requires Valid()
      reads this, queryStrategy, collection.Values
      ensures r <==> copy in AvailableOf(copy.book)
      ensures r ==> copy.book in collection && copy !in CheckedOutOf(copy.book)
    {
      copy.book in collection && copy in collection[copy.book].available
    }

    /**
     * `find(query)`: the tracked books that match the query exactly or share a
     * keyword with one of its words, each once, every neighbouring pair in
     * comparator order; the index stays sound.
     */
    method Find(q: string) returns (r: seq<Book>)
      requires Valid()
      modifies queryStrategy
      ensures Valid()
      ensures queryStrategy.query == Some(q)
      ensures Distinct(r)
      ensures forall b :: b in r <==> b in collection && Matches(q, b)
      ensures AdjacentSorted(r, Order(q))
    {
      r := queryStrategy.Find(q, collection.Keys);
      FindSetIsMatches(Keywords, old(queryStrategy.index), collection.Keys, q, collection.Keys);
      AfterFindSound(Keywords, old(queryStrategy.index), collection.Keys, q, collection.Keys);
    }

    /**
     * `lose(copy)`: the copy leaves its book's ledger; when that was the last
     * copy the book leaves the library. A copy of an untracked book changes
     * nothing.
     */
    method Lose(copy: BookCopy)
      requires Valid()
      modifies this, LedgerOfBook(copy.book)
      ensures Valid()
      ensures AvailableOf(copy.book) == old(AvailableOf(copy.book)) - {copy}
      ensures CheckedOutOf(copy.book) == old(CheckedOutOf(copy.book)) - {copy}
      ensures old(AvailableOf(copy.book) + CheckedOutOf(copy.book)) <= {copy} ==>
        collection == old(collection) - {copy.book}
      ensures !(old(AvailableOf(copy.book) + CheckedOutOf(copy.book)) <= {copy}) ==>
        collection == old(collection)
    {
      var book := copy.book;
      var bl: BookList;
      if book in collection {
        bl := collection[book];
      } else {
        bl := new BookList();
      }
      bl.Lose(copy);
      if book in collection {
        var all := AllCopies(book);
        if all == {} {
          collection := collection - {book};
          SoundForFewer(Keywords, queryStrategy.index, old(collection.Keys), collection.Keys);
        }
      }
    }
  }

  /** Once the last copy of a book is lost, no query finds the book. */
  method LoseLastCopyThenFind(library: BigLibrary, copy: BookCopy, q: string) returns (r: seq<Book>)
    requires library.Valid()
    requires library.AvailableOf(copy.book) + library.CheckedOutOf(copy.book) == {copy}
    modifies library, library.queryStrategy, library.collection.Values
    ensures library.Valid()
    ensures copy.book !in r
  {
    library.Lose(copy);
    r := library.Find(q);
  }
}
