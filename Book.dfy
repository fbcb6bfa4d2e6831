/**
 * A Book is an immutable edition: title, author list and publication year,
 * compared by value. A BookCopy is one physical copy of a Book, compared by
 * identity, whose condition can change.
 */
module Books {
  import opened JavaText
  import opened Outcomes

  datatype Book = Book(title: string, authors: seq<string>, year: int)

  /** The characters Java's regex `.` refuses to match: the line terminators. */
  predicate IsLineTerminator(c: char) {
    c == '\n' || c == '\r' || c == '\U{0085}' || c == '\U{2028}' || c == '\U{2029}'
  }

  predicate OnOneLine(s: string) {
    forall i | 0 <= i < |s| :: !IsLineTerminator(s[i])
  }

  predicate NoBlank(s: string) {
    forall i | 0 <= i < |s| :: s[i] != ' '
  }

  /**
   * The title check of the constructor's rep invariant as written: the whole
   * title matches `.*[^ ]+.*`, i.e. it splits into a one-line prefix, a
   * non-empty run without blanks and a one-line suffix.
   */
  predicate TitlePatternMatches(t: string) {
    exists i, j | 0 <= i < j <= |t| :: OnOneLine(t[..i]) && NoBlank(t[i..j]) && OnOneLine(t[j..])
  }

  /** The documented requirement on a title: at least one non-space character. */
  predicate HasNonBlank(t: string) {
    exists k | 0 <= k < |t| :: t[k] != ' '
  }

  /** The pattern never accepts an all-blank title. */
  lemma TitlePatternNeedsNonBlank(t: string)
    requires TitlePatternMatches(t)
    ensures HasNonBlank(t)
  {
    var i, j :| 0 <= i < j <= |t| && OnOneLine(t[..i]) && NoBlank(t[i..j]) && OnOneLine(t[j..]);
    assert t[i..j][0] == t[i];
  }

  /** On a one-line title the pattern is exactly the documented requirement. */
  lemma {:induction false} TitlePatternOnOneLine(t: string)
    requires OnOneLine(t)
    ensures TitlePatternMatches(t) <==> HasNonBlank(t)
  {
    if HasNonBlank(t) {
      var k :| 0 <= k < |t| && t[k] != ' ';
      assert OnOneLine(t[..k]) && NoBlank(t[k..k + 1]) && OnOneLine(t[k + 1..]);
    }
    if TitlePatternMatches(t) {
      TitlePatternNeedsNonBlank(t);
    }
  }

  /**
   * The pattern refuses a title that has a non-space character but a line
   * break on each side of its only blank.
   */
  lemma TitlePatternRejectsMultiLineTitle()
    ensures HasNonBlank("\n \n") && !TitlePatternMatches("\n \n")
  {
    var t := "\n \n";
    assert t[0] != ' ';
    forall i, j | 0 <= i < j <= |t|
      ensures !(OnOneLine(t[..i]) && NoBlank(t[i..j]) && OnOneLine(t[j..]))
    {
      if i > 0 {
        assert t[..i][0] == '\n';
      } else if j > 1 {
        assert t[i..j][1] == ' ';
      } else {
        assert t[j..][1] == '\n';
      }
    }
  }

  /** A book the constructor accepts. */
  predicate ValidBook(b: Book) {
    b.year >= 0 && |b.authors| >= 1 && HasNonBlank(b.title)
  }

  /**
   * `new Book(title, authors, year)` as written: fails its rep-invariant
   * assertion unless the year is nonnegative, there is an author and the
   * title matches `.*[^ ]+.*`.
   */
  function NewBookAsWritten(title: string, authors: seq<string>, year: int): (r: Result<Book>)
    ensures r.Success? <==> year >= 0 && |authors| >= 1 && TitlePatternMatches(title)
    ensures r.Success? ==> r.value.title == title && r.value.authors == authors && r.value.year == year
    ensures r.Failure? ==> r.error == AssertionFailed
  {
    if year >= 0 && |authors| >= 1 && TitlePatternMatches(title) then Success(Book(title, authors, year))
    else Failure(AssertionFailed)
  }

  /**
   * The corrected constructor: fails its rep-invariant assertion unless the
   * year is nonnegative, there is an author and the title has a non-space
   * character, as the rep invariant states, whatever line breaks the title
   * holds.
   */
  function NewBook(title: string, authors: seq<string>, year: int): (r: Result<Book>)
    ensures r.Success? <==> year >= 0 && |authors| >= 1 && HasNonBlank(title)
    ensures r.Success? ==> r.value.title == title && r.value.authors == authors && r.value.year == year
    ensures r.Success? ==> ValidBook(r.value)
    ensures r.Failure? ==> r.error == AssertionFailed
  {
    if year >= 0 && |authors| >= 1 && HasNonBlank(title) then Success(Book(title, authors, year))
    else Failure(AssertionFailed)
  }

  /** On a one-line title the constructor as written and the corrected one agree. */
  lemma NewBookAsWrittenOnOneLine(title: string, authors: seq<string>, year: int)
    requires OnOneLine(title)
    ensures NewBookAsWritten(title, authors, year) == NewBook(title, authors, year)
  {
    TitlePatternOnOneLine(title);
  }

  /** The constructor as written rejects the title "\n \n", which the corrected one accepts. */
  lemma NewBookAsWrittenRejectsMultiLineTitle(authors: seq<string>, year: int)
    requires year >= 0 && |authors| >= 1
    ensures NewBookAsWritten("\n \n", authors, year).Failure?
    ensures NewBook("\n \n", authors, year).Success?
  {
    TitlePatternRejectsMultiLineTitle();
  }

  /** `equals`: same authors, same title, same year. */
  lemma BookEquality(a: Book, b: Book)
    ensures a == b <==> a.authors == b.authors && a.title == b.title && a.year == b.year
  {
  }

  /** `sameAs`: the same work, possibly another edition. */
  predicate SameAs(a: Book, b: Book) {
    a.title == b.title && a.authors == b.authors
  }

  /** Two books are equal exactly when they are the same work in the same year. */
  lemma SameAsAndYear(a: Book, b: Book)
    ensures a == b <==> SameAs(a, b) && a.year == b.year
  {
  }

  /** `sameAs` is an equivalence relation. */
  lemma SameAsEquivalence(a: Book, b: Book, c: Book)
    ensures SameAs(a, a)
    ensures SameAs(a, b) ==> SameAs(b, a)
    ensures SameAs(a, b) && SameAs(b, c) ==> SameAs(a, c)
  {
  }

  /** `s` occurs in `t` starting at index `i`. */
  predicate OccursAt(s: string, t: string, i: int) {
    0 <= i <= |t| - |s| && t[i..i + |s|] == s
  }

  /** `s` occurs in `t`. */
  predicate Within(s: string, t: string) {
    exists i | 0 <= i <= |t| :: OccursAt(s, t, i)
  }

  lemma WithinMiddle(s: string, p: string, q: string)
    ensures Within(s, p + s + q)
  {
    assert (p + s + q)[|p|..|p| + |s|] == s;
    assert OccursAt(s, p + s + q, |p|);
  }

  lemma WithinLeft(s: string, t: string, u: string)
    requires Within(s, t)
    ensures Within(s, t + u)
  {
    var i :| 0 <= i <= |t| && OccursAt(s, t, i);
    assert i + |s| <= |t| && t[i..i + |s|] == s;
    assert (t + u)[i..i + |s|] == t[i..i + |s|];
    assert OccursAt(s, t + u, i);
  }

  lemma WithinRight(s: string, t: string, u: string)
    requires Within(s, u)
    ensures Within(s, t + u)
  {
    var i :| 0 <= i <= |u| && OccursAt(s, u, i);
    assert i + |s| <= |u| && u[i..i + |s|] == s;
    assert (t + u)[|t| + i..|t| + i + |s|] == u[i..i + |s|];
    assert OccursAt(s, t + u, |t| + i);
  }

  lemma WithinSelf(s: string)
    ensures Within(s, s)
  {
    assert s[0..|s|] == s;
    assert OccursAt(s, s, 0);
  }

  /** The elements separated by `sep`, as the author loop of toString appends them. */
  function Join(parts: seq<string>, sep: string): (r: string)
    ensures |parts| == 1 ==> r == parts[0]
  {
    if parts == [] then ""
    else if |parts| == 1 then parts[0]
    else parts[0] + sep + Join(parts[1..], sep)
  }

  /** Every element appears in the joined text. */
  lemma {:induction false} JoinShowsParts(parts: seq<string>, sep: string)
    ensures forall k | 0 <= k < |parts| :: Within(parts[k], Join(parts, sep))
  {
    if |parts| == 1 {
      WithinSelf(parts[0]);
    } else if |parts| > 1 {
      JoinShowsParts(parts[1..], sep);
      var rest := Join(parts[1..], sep);
      forall k | 0 <= k < |parts| ensures Within(parts[k], Join(parts, sep)) {
        if k == 0 {
          WithinSelf(parts[0]);
          WithinLeft(parts[0], parts[0], sep + rest);
          assert parts[0] + (sep + rest) == Join(parts, sep);
        } else {
          assert parts[k] == parts[1..][k - 1];
          WithinRight(parts[k], parts[0] + sep, rest);
        }
      }
    }
  }

  /** `toString`: the title, the year in parentheses, then the authors joined by "; ". */
  function BookString(b: Book): string {
    Rendering(b.title, IntToString(b.year), Join(b.authors, "; "))
  }

  /** `String.format("%1s (%2s) | ", title, year)` followed by the joined authors. */
  function Rendering(title: string, year: string, authors: string): string {
    PadLeft(title, 1) + " (" + PadLeft(year, 2) + ") | " + authors
  }

  lemma PadLeftParts(s: string, width: nat)
    ensures PadLeft(s, width) == Spaces(|PadLeft(s, width)| - |s|) + s
  {
  }

  lemma RenderingShowsTitle(title: string, year: string, authors: string)
    ensures Within(title, Rendering(title, year, authors))
    ensures title != [] ==> Rendering(title, year, authors)[..|title|] == title
  {
    var rest := " (" + PadLeft(year, 2) + ") | " + authors;
    var r := Rendering(title, year, authors);
    RenderingAfterTitle(PadLeft(title, 1), " (", PadLeft(year, 2), ") | ", authors);
    if title == [] {
      assert OccursAt(title, r, 0);
    } else {
      assert PadLeft(title, 1) == title;
      AppendParts(title, rest);
      assert r[0..|title|] == title;
      assert OccursAt(title, r, 0);
    }
  }

  lemma RenderingShowsYear(title: string, year: string, authors: string)
    ensures Within(year, Rendering(title, year, authors))
  {
    var spaces := Spaces(|PadLeft(year, 2)| - |year|);
    PadLeftParts(year, 2);
    RenderingRegrouped(PadLeft(title, 1), spaces, year, authors);
    WithinMiddle(year, PadLeft(title, 1) + " (" + spaces, ") | " + authors);
  }

  /** The rendering's pieces, grouped after the title. */
  lemma RenderingAfterTitle(t: string, open: string, year: string, close: string, authors: string)
    ensures t + open + year + close + authors == t + (open + year + close + authors)
  {
  }

  /** The rendering's pieces, grouped around the year. */
  lemma RenderingRegrouped(t: string, spaces: string, year: string, authors: string)
    ensures t + " (" + (spaces + year) + ") | " + authors == (t + " (" + spaces) + year + (") | " + authors)
  {
  }

  lemma RenderingShowsAuthors(title: string, year: string, authors: string, s: string)
    requires Within(s, authors)
    ensures Within(s, Rendering(title, year, authors))
  {
    var front := PadLeft(title, 1) + " (" + PadLeft(year, 2) + ") | ";
    assert Rendering(title, year, authors) == front + authors;
    WithinRight(s, front, authors);
  }

  /** The rendering starts with the title, padded to one character. */
  lemma BookStringShowsTitle(b: Book)
    ensures Within(b.title, BookString(b))
    ensures b.title != [] ==> BookString(b)[..|b.title|] == b.title
  {
    RenderingShowsTitle(b.title, IntToString(b.year), Join(b.authors, "; "));
  }

  /** The rendering shows the year in decimal. */
  lemma BookStringShowsYear(b: Book)
    ensures Within(IntToString(b.year), BookString(b))
  {
    RenderingShowsYear(b.title, IntToString(b.year), Join(b.authors, "; "));
  }

  /** The rendering names every author. */
  lemma BookStringShowsAuthors(b: Book)
    ensures forall a | a in b.authors :: Within(a, BookString(b))
  {
    var authors := Join(b.authors, "; ");
    JoinShowsParts(b.authors, "; ");
    forall a | a in b.authors ensures Within(a, BookString(b)) {
      RenderingShowsAuthors(b.title, IntToString(b.year), authors, a);
    }
  }

  /** `BookCopy.Condition`. */
  datatype Condition = Good | Damaged

  /** `condition.toString().toLowerCase()`. */
  function ConditionName(c: Condition): (r: string)
    ensures r == "good" || r == "damaged"
    ensures r == "good" <==> c == Good
  {
    match c
    case Good => "good"
    case Damaged => "damaged"
  }

  /** One physical copy of a book; two copies of one book are different objects. */
  class BookCopy {
    const book: Book
    var condition: Condition

    /** A new copy is in good condition. */
    constructor (book: Book)
      ensures this.book == book && condition == Good
    {
      this.book := book;
      condition := Good;
    }

    method SetCondition(c: Condition)
      modifies this
      ensures condition == c
    {
      condition := c;
    }

    /** The book's rendering, a line break, then "Condition: good" or "Condition: damaged". */
    function ToString(): (r: string)
      reads this
      ensures |r| > |BookString(book)|
      ensures r[..|BookString(book)|] == BookString(book)
      ensures r[|BookString(book)|..] == "\nCondition: " + ConditionName(condition)
    {
      var line := "\nCondition: " + ConditionName(condition);
      AppendParts(BookString(book), line);
      BookString(book) + line
    }
  }

  /** The two halves of a concatenation. */
  lemma AppendParts(a: string, b: string)
    ensures (a + b)[..|a|] == a && (a + b)[|a|..] == b
  {
  }

  /** Copying a book twice gives two distinct copies of one book, both in good condition. */
  method TwoCopies(b: Book) returns (c1: BookCopy, c2: BookCopy)
    ensures c1 != c2 && c1.book == b && c2.book == b
    ensures c1.condition == Good && c2.condition == Good
  {
    c1 := new BookCopy(b);
    c2 := new BookCopy(b);
  }
}
