/**
 * The per-book ledger of a BigLibrary: which copies of one book are on the
 * shelf and which are checked out.
 */
module Ledger {
  import opened Books

  class BookList {
    var available: set<BookCopy>
    var checkedOut: set<BookCopy>

    /** Every copy in the ledger, on the shelf or out. */
    ghost function Copies(): set<BookCopy>
      reads this
    {
      available + checkedOut
    }

    /** The rep invariant: no copy is both on the shelf and out, and all copies are of one book. */
    ghost predicate Valid()
      reads this
    {
      available !! checkedOut &&
      forall c1, c2 | c1 in Copies() && c2 in Copies() :: c1.book == c2.book
    }

    /** `copy` is of the same book as every copy already tracked, so checkRep keeps passing. */
    ghost predicate Admits(copy: BookCopy)
      reads this
    {
      forall c | c in Copies() :: c.book == copy.book
    }

    /** Every tracked copy is a copy of `b`. */
    ghost predicate HoldsOnly(b: Book)
      reads this
    {
      forall c | c in Copies() :: c.book == b
    }

    constructor ()
      ensures Valid() && available == {} && checkedOut == {}
    {
      available := {};
      checkedOut := {};
    }

    /** The copy moves (or is added) to the shelf. */
    method Checkin(copy: BookCopy)
      requires Valid() && Admits(copy)
      modifies this
      ensures Valid()
      ensures available == old(available) + {copy}
      ensures checkedOut == old(checkedOut) - {copy}
    {
      checkedOut := checkedOut - {copy};
      available := available + {copy};
    }

    /** The copy moves (or is added) to the checked-out set. */
    method Checkout(copy: BookCopy)
      requires Valid() && Admits(copy)
      modifies this
      ensures Valid()
      ensures available == old(available) - {copy}
      ensures checkedOut == old(checkedOut) + {copy}
    {
      available := available - {copy};
      checkedOut := checkedOut + {copy};
    }

    /** The copy leaves the ledger, wherever it was; a copy not tracked changes nothing. */
    method Lose(copy: BookCopy)
      requires Valid()
      modifies this
      ensures Valid()
      ensures available == old(available) - {copy}
      ensures checkedOut == old(checkedOut) - {copy}
    {
      available := available - {copy};
      checkedOut := checkedOut - {copy};
    }

    /** A copy of the shelf set. */
    method GetAvailable() returns (r: set<BookCopy>)
      ensures r == available
    {
      r := available;
    }

    /** A copy of the checked-out set. */
    method GetCheckedOut() returns (r: set<BookCopy>)
      ensures r == checkedOut
    {
      r := checkedOut;
    }
  }

  /** Checking a copy out and back in leaves a ledger where it was, when the copy was on the shelf. */
  method CheckoutCheckin(ledger: BookList, copy: BookCopy)
    requires ledger.Valid() && copy in ledger.available
    modifies ledger
    ensures ledger.Valid()
    ensures ledger.available == old(ledger.available) && ledger.checkedOut == old(ledger.checkedOut)
  {
    ledger.Checkout(copy);
    ledger.Checkin(copy);
  }
}
