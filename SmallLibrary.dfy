/**
 * SmallLibrary: a home collection kept as two sets of copies, those on the
 * shelf (`inLibrary`) and those checked out. Checkout, checkin and lose
 * refuse a copy that is not where the operation expects it, with an
 * InvalidParameterException and no change.
 */
module SmallLib {
  import opened Books
  import opened Outcomes
  import opened Sorting
  import opened Query

  /** The copies of `book` among `c`. */
  ghost function CopiesOf(book: Book, c: set<BookCopy>): set<BookCopy> {
    set x | x in c && x.book == book
  }

  class SmallLibrary {
    var inLibrary: set<BookCopy>
    var checkedOut: set<BookCopy>

    /** Every copy the library holds. */
    ghost function Held(): set<BookCopy>
      reads this
    {
      inLibrary + checkedOut
    }

    /** The books of the copies the library holds. */
    ghost function HeldBooks(): set<Book>
      reads this
    {
      set c | c in Held() :: c.book
    }

    /** The rep invariant: no copy is both on the shelf and out. */
    ghost predicate Valid()
      reads this
    {
      inLibrary !! checkedOut
    }

    constructor ()
      ensures Valid() && inLibrary == {} && checkedOut == {}
    {
      inLibrary := {};
      checkedOut := {};
    }

    /** `buy(book)`: a new copy in good condition, on the shelf; the book has one copy more. */
    method Buy(book: Book) returns (copy: BookCopy)
      requires Valid()
      modifies this
      ensures Valid()
      ensures fresh(copy) && copy.book == book && copy.condition == Good
      ensures inLibrary == old(inLibrary) + {copy} && checkedOut == old(checkedOut)
      ensures CopiesOf(book, Held()) == CopiesOf(book, old(Held())) + {copy}
      ensures |CopiesOf(book, Held())| == |CopiesOf(book, old(Held()))| + 1
    {
      copy := new BookCopy(book);
      inLibrary := inLibrary + {copy};
      assert copy !in CopiesOf(book, old(Held()));
    }

    /** `checkout(copy)`: moves a copy on the shelf to checked out; any other copy is refused. */
    method Checkout(copy: BookCopy) returns (outcome: Outcome)
      requires Valid()
      modifies this
      ensures Valid()
      ensures old(copy in inLibrary) ==>
        outcome == Pass && inLibrary == old(inLibrary) - {copy} && checkedOut == old(checkedOut) + {copy}
      ensures old(copy !in inLibrary) ==>
        outcome == Fail(InvalidParameter("This copy is not available for checkout")) &&
        inLibrary == old(inLibrary) && checkedOut == old(checkedOut)
    {
      if copy in inLibrary {
        inLibrary := inLibrary - {copy};
        checkedOut := checkedOut + {copy};
        outcome := Pass;
      } else {
        outcome := Fail(InvalidParameter("This copy is not available for checkout"));
      }
    }

    /** `checkin(copy)`: moves a checked-out copy back to the shelf; any other copy is refused. */
    method Checkin(copy: BookCopy) returns (outcome: Outcome)
      requires Valid()
      modifies this
      ensures Valid()
      ensures old(copy in checkedOut) ==>
        outcome == Pass && checkedOut == old(checkedOut) - {copy} && inLibrary == old(inLibrary) + {copy}
      ensures old(copy !in checkedOut) ==>
        outcome == Fail(InvalidParameter("This copy is not available for checkin")) &&
        inLibrary == old(inLibrary) && checkedOut == old(checkedOut)
    {
      if copy in checkedOut {
        checkedOut := checkedOut - {copy};
        inLibrary := inLibrary + {copy};
        outcome := Pass;
      } else {
        outcome := Fail(InvalidParameter("This copy is not available for checkin"));
      }
    }

    /** `isAvailable(copy)`: the copy is on the shelf, and so not checked out. */
    function IsAvailable(copy: BookCopy): (r: bool)
      requires Valid()
      reads this
      ensures r <==> copy in inLibrary
      ensures r ==> copy !in checkedOut
    {
      copy in inLibrary
    }

    /** `getCopies(book, c)`: the copies of `book` in `c`. */
    method GetCopies(book: Book, c: set<BookCopy>) returns (copies: set<BookCopy>)
      ensures copies == CopiesOf(book, c)
    {
      copies := {};
      var rest := c;
      while rest != {}
        invariant rest <= c
        invariant copies == CopiesOf(book, c - rest)
      {
        var b :| b in rest;
        if b.book == book {
          copies := copies + {b};
        }
        rest := rest - {b};
      }
    }

    /** `availableCopies(book)`: the copies of `book` on the shelf. */
    method AvailableCopies(book: Book) returns (copies: set<BookCopy>)
      ensures copies == CopiesOf(book, inLibrary)
    {
      copies := GetCopies(book, inLibrary);
    }

    /** `allCopies(book)`: the copies of `book` on the shelf or out. */
    method AllCopies(book: Book) returns (copies: set<BookCopy>)
      ensures copies == CopiesOf(book, Held())
    {
      copies := AvailableCopies(book);
      var out := GetCopies(book, checkedOut);
      copies := copies + out;
    }

    /**
     * `find(query)`: the books of the held copies whose title is the query or
     * whose authors include it, each once, latest year first.
     */
    method Find(q: string) returns (r: seq<Book>)
      ensures Distinct(r)
      ensures forall b :: b in r <==> b in HeldBooks() && ExactMatch(q, b)
      ensures forall i, j | 0 <= i < j < |r| :: r[i].year >= r[j].year
    {
      var union := inLibrary + checkedOut;
      var foundBooks: set<Book> := {};
      var rest := union;
      while rest != {}
        invariant rest <= union
        invariant forall b :: b in foundBooks <==>
          (exists c | c in union - rest :: c.book == b) && ExactMatch(q, b)
      {
        var copy :| copy in rest;
        var book := copy.book;
        if book.title == q {
          foundBooks := foundBooks + {book};
        }
        if q in book.authors {
          foundBooks := foundBooks + {book};
        }
        rest := rest - {copy};
      }
      r := ListByYear(foundBooks);
    }

    /** `lose(copy)`: the copy leaves whichever set holds it; a copy not held is refused. */
    method Lose(copy: BookCopy) returns (outcome: Outcome)
      requires Valid()
      modifies this
      ensures Valid()
      ensures old(copy in Held()) ==>
        outcome == Pass && inLibrary == old(inLibrary) - {copy} && checkedOut == old(checkedOut) - {copy}
      ensures old(copy !in Held()) ==>
        outcome == Fail(InvalidParameter("This copy does not exist in library")) &&
        inLibrary == old(inLibrary) && checkedOut == old(checkedOut)
    {
      if copy in inLibrary {
        inLibrary := inLibrary - {copy};
        outcome := Pass;
      } else if copy in checkedOut {
        checkedOut := checkedOut - {copy};
        outcome := Pass;
      } else {
        outcome := Fail(InvalidParameter("This copy does not exist in library"));
      }
    }
  }

  /** Checking out an available copy and checking it back in leaves the library as it was. */
  method CheckoutThenCheckin(library: SmallLibrary, copy: BookCopy) returns (out: Outcome, back: Outcome)
    requires library.Valid() && library.IsAvailable(copy)
    modifies library
    ensures out == Pass && back == Pass
    ensures library.Valid() && library.IsAvailable(copy)
    ensures library.inLibrary == old(library.inLibrary) && library.checkedOut == old(library.checkedOut)
  {
    out := library.Checkout(copy);
    back := library.Checkin(copy);
  }
}
