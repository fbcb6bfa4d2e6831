/**
 * The two query strategies of the library: SimpleQuery (exact title or exact
 * author, latest edition first) and IndexedQuery (a keyword index, matches on
 * the whole query or any of its whitespace-separated words, ranked by a match
 * score).
 */
module Query {
  import opened JavaText
  import opened Books
  import opened Sorting
  import opened Outcomes

  // ---------------------------------------------------------------------------
  // SimpleQuery
  // ---------------------------------------------------------------------------

  /** The query is the whole title or one whole author name. */
  predicate ExactMatch(q: string, b: Book) {
    b.title == q || q in b.authors
  }

  /** The `byYear` comparator: a later year comes first. */
  function ByYear(): (Book, Book) -> int {
    (o1: Book, o2: Book) => IntCompare(o2.year, o1.year)
  }

  lemma ByYearIsTotalPreorder()
    ensures Antisymmetric(ByYear()) && TransitiveNotAfter(ByYear())
  {
  }

  /** Lists a set of books, latest year first (`new ArrayList<>(set)` then `Collections.sort(list, byYear)`). */
  method ListByYear(found: set<Book>) returns (r: seq<Book>)
    ensures Distinct(r) && |r| == |found|
    ensures forall b :: b in r <==> b in found
    ensures forall i, j | 0 <= i < j < |r| :: r[i].year >= r[j].year
  {
    var list := SetToSeq(found);
    r := Sort(list, ByYear());
    SortDistinct(list, ByYear());
    ByYearIsTotalPreorder();
    SortAdjacentSorted(list, ByYear());
    AdjacentSortedIsSorted(r, ByYear());
    forall i, j | 0 <= i < j < |r| ensures r[i].year >= r[j].year {
      assert ByYear()(r[i], r[j]) <= 0;
    }
  }

  /** `SimpleQuery.find`: the books of the set that match exactly, latest year first. */
  method SimpleFind(q: string, books: set<Book>) returns (r: seq<Book>)
    ensures Distinct(r)
    ensures forall b :: b in r <==> b in books && ExactMatch(q, b)
    ensures forall i, j | 0 <= i < j < |r| :: r[i].year >= r[j].year
  {
    var found: set<Book> := {};
    var rest := books;
    while rest != {}
      invariant rest <= books
      invariant forall b :: b in found <==> b in books && b !in rest && ExactMatch(q, b)
    {
      var book :| book in rest;
      if book.title == q {
        found := found + {book};
      }
      if q in book.authors {
        found := found + {book};
      }
      rest := rest - {book};
    }
    r := ListByYear(found);
  }

  // ---------------------------------------------------------------------------
  // Keywords
  // ---------------------------------------------------------------------------

  /** The whitespace-separated words of every author name, in order. */
  function AuthorWords(authors: seq<string>): seq<string> {
    if authors == [] then [] else Split(authors[0]) + AuthorWords(authors[1..])
  }

  lemma {:induction false} AuthorWordsMembers(authors: seq<string>, w: string)
    ensures w in AuthorWords(authors) <==> exists a | a in authors :: w in Split(a)
  {
    if authors != [] {
      AuthorWordsMembers(authors[1..], w);
      assert forall a | a in authors :: a == authors[0] || a in authors[1..];
    }
  }

  /** The keywords of `getKeywords`, with repetitions: title, title words, authors, author words, year. */
  function KeywordSeq(b: Book): seq<string> {
    [b.title] + Split(b.title) + b.authors + AuthorWords(b.authors) + [IntToString(b.year)]
  }

  /** The strings of a list, as a set. */
  function WordSet(ws: seq<string>): set<string> {
    set w | w in ws
  }

  /** `getKeywords(book)`: the title, its words, the authors, their words and the year. */
  function Keywords(b: Book): set<string> {
    {b.title} + WordSet(Split(b.title)) + WordSet(b.authors) + WordSet(AuthorWords(b.authors)) + {IntToString(b.year)}
  }

  /** What a book is indexed under. */
  lemma KeywordsOfBook(b: Book, k: string)
    ensures k in Keywords(b) <==>
      k == b.title || k in Split(b.title) || k in b.authors ||
      (exists a | a in b.authors :: k in Split(a)) || k == IntToString(b.year)
  {
    assert k in WordSet(AuthorWords(b.authors)) <==> k in AuthorWords(b.authors);
    AuthorWordsMembers(b.authors, k);
  }

  /** `getKeywords`: the loop over the authors collects their words. */
  method GetKeywords(b: Book) returns (words: set<string>)
    ensures words == Keywords(b)
  {
    words := {b.title};
    words := words + WordSet(Split(b.title));
    words := words + WordSet(b.authors);
    ghost var named := words;
    var i := 0;
    while i < |b.authors|
      invariant 0 <= i <= |b.authors|
      invariant words == named + WordSet(AuthorWords(b.authors[..i]))
    {
      AuthorWordsStep(b.authors, i);
      words := words + WordSet(Split(b.authors[i]));
      i := i + 1;
    }
    assert b.authors[..i] == b.authors;
    words := words + {IntToString(b.year)};
  }

  lemma AuthorWordsStep(authors: seq<string>, i: nat)
    requires i < |authors|
    ensures WordSet(AuthorWords(authors[..i + 1])) == WordSet(AuthorWords(authors[..i])) + WordSet(Split(authors[i]))
  {
    assert authors[..i + 1] == authors[..i] + [authors[i]];
    AuthorWordsAppend(authors[..i], authors[i]);
  }

  lemma {:induction false} AuthorWordsAppend(authors: seq<string>, a: string)
    ensures AuthorWords(authors + [a]) == AuthorWords(authors) + Split(a)
  {
    if authors != [] {
      assert (authors + [a])[1..] == authors[1..] + [a];
      AuthorWordsAppend(authors[1..], a);
    }
  }

  // ---------------------------------------------------------------------------
  // Match score
  // ---------------------------------------------------------------------------

  /** The elements of `s`, each once, in order of last occurrence. */
  function Dedup(s: seq<string>): (r: seq<string>)
    ensures Distinct(r)
    ensures forall w :: w in r <==> w in s
  {
    if s == [] then []
    else
      assert forall w :: w in s <==> w == s[0] || w in s[1..];
      if s[0] in s[1..] then Dedup(s[1..]) else [s[0]] + Dedup(s[1..])
  }

  /** The number of characters in a list of strings. */
  function TotalLength(ws: seq<string>): nat {
    if ws == [] then 0 else |ws[0]| + TotalLength(ws[1..])
  }

  /** The words of `ws` that are not among the query words. */
  function Unmatched(ws: seq<string>, queryWords: seq<string>): (r: seq<string>)
    ensures forall w :: w in r <==> w in ws && w !in queryWords
  {
    if ws == [] then []
    else if ws[0] in queryWords then Unmatched(ws[1..], queryWords)
    else [ws[0]] + Unmatched(ws[1..], queryWords)
  }

  lemma {:induction false} TotalLengthOfMember(ws: seq<string>, w: string)
    requires w in ws
    ensures TotalLength(ws) >= |w|
  {
    if ws[0] != w {
      TotalLengthOfMember(ws[1..], w);
    }
  }

  lemma {:induction false} UnmatchedShorter(ws: seq<string>, queryWords: seq<string>)
    ensures TotalLength(Unmatched(ws, queryWords)) <= TotalLength(ws)
    ensures TotalLength(Unmatched(ws, queryWords)) == TotalLength(ws) <==>
      forall w | w in ws && w in queryWords :: w == []
    ensures TotalLength(Unmatched(ws, queryWords)) == 0 <==>
      forall w | w in ws && w !in queryWords :: w == []
  {
    if ws != [] {
      UnmatchedShorter(ws[1..], queryWords);
      assert forall w :: w in ws <==> w == ws[0] || w in ws[1..];
    }
  }

  /**
   * A score as the exact fraction num / den, den > 0. The source computes it as
   * a double; the fractions here are what those doubles approximate.
   */
  datatype Score = Score(num: int, den: int)

  /** The score fraction a is smaller than the score fraction b. */
  predicate ScoreLess(a: Score, b: Score) {
    a.num * b.den < b.num * a.den
  }

  /** The score fraction a equals the score fraction b. */
  predicate ScoreSame(a: Score, b: Score) {
    a.num * b.den == b.num * a.den
  }

  /** The distinct keywords of a book, as the HashSet of `getKeywords` holds them. */
  function KeywordList(b: Book): seq<string> {
    Dedup(KeywordSeq(b))
  }

  /** Each keyword of the book once. */
  lemma KeywordListMembers(b: Book)
    ensures Distinct(KeywordList(b))
    ensures forall k :: k in KeywordList(b) <==> k in Keywords(b)
  {
  }

  /**
   * `matchScore(query, book)`: 4 for the exact title, 3 for an exact author, 2
   * for the exact year; otherwise the share of the book's keyword characters
   * that belong to keywords among the query's words.
   */
  function MatchScore(q: string, b: Book): (r: Score)
    ensures r.den > 0 && 0 <= r.num
    ensures q == b.title ==> r == Score(4, 1)
    ensures q != b.title && q in b.authors ==> r == Score(3, 1)
    ensures q != b.title && q !in b.authors && q == IntToString(b.year) ==> r == Score(2, 1)
    ensures q != b.title && q !in b.authors && q != IntToString(b.year) ==> r.num <= r.den
  {
    if q == b.title then Score(4, 1)
    else if q in b.authors then Score(3, 1)
    else if q == IntToString(b.year) then Score(2, 1)
    else
      var words := KeywordList(b);
      KeywordListMembers(b);
      assert IntToString(b.year) in words;
      TotalLengthOfMember(words, IntToString(b.year));
      UnmatchedShorter(words, Split(q));
      PartialScore(words, Split(q))
  }

  /** The characters of `words` against those of its words that are not query words. */
  function PartialScore(words: seq<string>, queryWords: seq<string>): Score {
    var bookChars := TotalLength(words);
    var unmatchedChars := TotalLength(Unmatched(words, queryWords));
    Score(bookChars - unmatchedChars, bookChars)
  }

  /** A partial match scores 1 exactly when every non-empty keyword of the book is a query word. */
  lemma PartialScoreFull(q: string, b: Book)
    requires q != b.title && q !in b.authors && q != IntToString(b.year)
    ensures MatchScore(q, b).num == MatchScore(q, b).den <==>
      forall k | k in Keywords(b) && k != [] :: k in Split(q)
  {
    KeywordListMembers(b);
    UnmatchedShorter(KeywordList(b), Split(q));
  }

  /** A partial match scores 0 exactly when no non-empty keyword of the book is a query word. */
  lemma PartialScoreZero(q: string, b: Book)
    requires q != b.title && q !in b.authors && q != IntToString(b.year)
    ensures MatchScore(q, b).num == 0 <==>
      forall k | k in Keywords(b) && k in Split(q) :: k == []
  {
    KeywordListMembers(b);
    UnmatchedShorter(KeywordList(b), Split(q));
  }

  /** `Double.compare` of two scores. */
  function ScoreCompare(a: Score, b: Score): (r: int)
    requires a.den > 0 && b.den > 0
    ensures r < 0 <==> ScoreLess(a, b)
    ensures r == 0 <==> ScoreSame(a, b)
    ensures r > 0 <==> ScoreLess(b, a)
  {
    IntCompare(a.num * b.den, b.num * a.den)
  }

  /**
   * The `order` comparator of IndexedQuery for the query `q`: editions of the
   * same work latest first; otherwise higher score first, then title.
   */
  function Compare(q: string, o1: Book, o2: Book): (r: int)
    ensures -1 <= r <= 1
    ensures SameAs(o1, o2) ==> (r < 0 <==> o1.year > o2.year) && (r == 0 <==> o1 == o2)
    ensures !SameAs(o1, o2) && ScoreLess(MatchScore(q, o2), MatchScore(q, o1)) ==> r < 0
    ensures !SameAs(o1, o2) && ScoreSame(MatchScore(q, o2), MatchScore(q, o1)) ==>
      r == CompareStrings(o1.title, o2.title)
  {
    if SameAs(o1, o2) then IntCompare(o2.year, o1.year)
    else
      var cmp := ScoreCompare(MatchScore(q, o2), MatchScore(q, o1));
      if cmp == 0 then CompareStrings(o1.title, o2.title) else cmp
  }

  function Order(q: string): (Book, Book) -> int {
    (o1: Book, o2: Book) => Compare(q, o1, o2)
  }

  /** The comparator meets the sign half of Java's contract. */
  lemma OrderAntisymmetric(q: string)
    ensures Antisymmetric(Order(q))
  {
    forall a: Book, b: Book ensures Compare(q, a, b) < 0 <==> Compare(q, b, a) > 0 {
      CompareStringsAntisymmetric(a.title, b.title);
    }
  }

  /** A book with a one-word title and a single one-word author has three keywords. */
  lemma OneWordBookKeywords(title: string, author: string, year: nat)
    requires NoSpace(title) && NoSpace(author)
    requires title != author && title != DecimalString(year) && author != DecimalString(year)
    ensures KeywordList(Book(title, [author], year)) == [title, author, DecimalString(year)]
  {
    OneWordBookKeywordSeq(title, author, year);
    DedupPairs(title, author, DecimalString(year));
  }

  lemma OneWordBookKeywordSeq(title: string, author: string, year: nat)
    requires NoSpace(title) && NoSpace(author)
    ensures KeywordSeq(Book(title, [author], year)) == [title, title, author, author, DecimalString(year)]
  {
    SplitOneWord(title);
    SplitOneWord(author);
    AuthorWordsOne(author);
    var y := IntToString(year);
    assert [title] + [title] + [author] + [author] + [y] == [title, title, author, author, y];
  }

  lemma AuthorWordsOne(author: string)
    requires NoSpace(author)
    ensures AuthorWords([author]) == [author]
  {
    SplitOneWord(author);
    assert [author][1..] == [];
  }

  /** Three different words, the first two doubled, keep one copy each. */
  lemma DedupPairs(x: string, y: string, z: string)
    requires x != y && x != z && y != z
    ensures Dedup([x, x, y, y, z]) == [x, y, z]
  {
    assert Dedup([z]) == [z] by {
      assert [z][1..] == [];
    }
    assert Dedup([y, z]) == [y, z] by {
      assert [y, z][1..] == [z];
    }
    assert Dedup([y, y, z]) == [y, z] by {
      assert [y, y, z][1..] == [y, z];
    }
    assert Dedup([x, y, y, z]) == [x, y, z] by {
      assert [x, y, y, z][1..] == [y, y, z];
    }
    assert [x, x, y, y, z][1..] == [x, y, y, z];
  }

  /** The characters of `w` when it is a query word, else none. */
  function MatchedLength(w: string, qw: seq<string>): nat {
    if w in qw then |w| else 0
  }

  /** The characters of a three-word list, and those of its words that are query words. */
  lemma ThreeWordLengths(x: string, y: string, z: string, qw: seq<string>)
    ensures TotalLength([x, y, z]) == |x| + |y| + |z|
    ensures TotalLength([x, y, z]) - TotalLength(Unmatched([x, y, z], qw)) ==
      MatchedLength(x, qw) + MatchedLength(y, qw) + MatchedLength(z, qw)
  {
    var ws := [x, y, z];
    assert ws[1..] == [y, z] && ws[1..][1..] == [z] && ws[1..][1..][1..] == [];
    assert TotalLength([z]) == |z|;
    assert TotalLength([y, z]) == |y| + |z|;
    var ux := if x in qw then [] else [x];
    var uy := if y in qw then [] else [y];
    var uz := if z in qw then [] else [z];
    assert Unmatched([z], qw) == uz;
    assert Unmatched([y, z], qw) == uy + uz;
    assert Unmatched(ws, qw) == ux + (uy + uz);
    TotalLengthAppend(uy, uz);
    TotalLengthAppend(ux, uy + uz);
  }

  /** The partial score of three keywords: the characters of those that are query words. */
  lemma ThreeWordScore(x: string, y: string, z: string, qw: seq<string>)
    ensures PartialScore([x, y, z], qw) ==
      Score(MatchedLength(x, qw) + MatchedLength(y, qw) + MatchedLength(z, qw), |x| + |y| + |z|)
  {
    ThreeWordLengths(x, y, z, qw);
  }

  /** A partial match of such a book is scored on its three keywords. */
  lemma OneWordBookScore(q: string, title: string, author: string, year: nat)
    requires NoSpace(title) && NoSpace(author)
    requires title != author && title != DecimalString(year) && author != DecimalString(year)
    requires q != title && q != author && q != DecimalString(year)
    ensures MatchScore(q, Book(title, [author], year)) == PartialScore([title, author, DecimalString(year)], Split(q))
  {
    var b := Book(title, [author], year);
    assert q !in b.authors;
    assert IntToString(b.year) == DecimalString(year);
    OneWordBookKeywords(title, author, year);
  }

  lemma {:induction false} TotalLengthAppend(a: seq<string>, b: seq<string>)
    ensures TotalLength(a + b) == TotalLength(a) + TotalLength(b)
  {
    if a != [] {
      assert (a + b)[1..] == a[1..] + b;
      TotalLengthAppend(a[1..], b);
    } else {
      assert a + b == b;
    }
  }

  /**
   * The comparator does not meet the transitivity half: for the query
   * "T 1900", a 2000 edition of "T" by X comes before its 1900 edition (same
   * work), which comes before "T" (1900) by YY (5/6 against 5/7), which comes
   * before the 2000 edition (5/7 against 1/6).
   */
  lemma OrderNotTransitive()
    ensures !TransitiveNotAfter(Order("T 1900"))
  {
    CycleQueryWords();
    CycleOrder("T 1900");
  }

  /** The cycle for any query whose words are "T" and "1900" (and that is none of the keywords). */
  lemma CycleOrder(q: string)
    requires Split(q) == ["T", "1900"] && q !in {"T", "X", "YY", "1900", "2000"}
    ensures !TransitiveNotAfter(Order(q))
  {
    var a := Book("T", ["X"], 2000);
    var a' := Book("T", ["X"], 1900);
    var c := Book("T", ["YY"], 1900);
    CycleCompares(q);
    assert Order(q)(a, a') <= 0 && Order(q)(a', c) <= 0 && !(Order(q)(a, c) <= 0);
  }

  /** The three comparisons of the cycle. */
  lemma CycleCompares(q: string)
    requires Split(q) == ["T", "1900"] && q !in {"T", "X", "YY", "1900", "2000"}
    ensures Compare(q, Book("T", ["X"], 2000), Book("T", ["X"], 1900)) < 0
    ensures Compare(q, Book("T", ["X"], 1900), Book("T", ["YY"], 1900)) < 0
    ensures Compare(q, Book("T", ["X"], 2000), Book("T", ["YY"], 1900)) > 0
  {
    CycleScores(q);
  }

  lemma CycleScores(q: string)
    requires Split(q) == ["T", "1900"] && q !in {"T", "X", "YY", "1900", "2000"}
    ensures MatchScore(q, Book("T", ["X"], 2000)) == Score(1, 6)
    ensures MatchScore(q, Book("T", ["X"], 1900)) == Score(5, 6)
    ensures MatchScore(q, Book("T", ["YY"], 1900)) == Score(5, 7)
  {
    CycleYears();
    CycleScore(q, "X", 2000, "2000");
    CycleScore(q, "X", 1900, "1900");
    CycleScore(q, "YY", 1900, "1900");
  }

  /** A book "T" by one one-word author, scored against a query whose words are "T" and "1900". */
  lemma CycleScore(q: string, author: string, year: nat, y: string)
    requires Split(q) == ["T", "1900"] && q != "T" && q != author && q != y
    requires author == "X" || author == "YY"
    requires y == DecimalString(year) && (y == "1900" || y == "2000")
    ensures MatchScore(q, Book("T", [author], year)) ==
      Score(1 + (if y == "1900" then 4 else 0), 1 + |author| + 4)
  {
    var qw := ["T", "1900"];
    OneWordBookScore(q, "T", author, year);
    ThreeWordScore("T", author, y, qw);
    assert MatchedLength("T", qw) == 1;
    assert MatchedLength(author, qw) == 0;
    assert MatchedLength(y, qw) == if y == "1900" then 4 else 0;
  }

  lemma CycleQueryWords()
    ensures Split("T 1900") == ["T", "1900"]
  {
    assert Split("1900") == ["1900"];
    SplitCons("T", ' ', "1900");
    assert "T 1900" == "T" + [' '] + "1900";
  }

  lemma CycleYears()
    ensures DecimalString(2000) == "2000" && DecimalString(1900) == "1900"
  {
    assert DecimalString(2) == "2" && DecimalString(20) == "20" && DecimalString(200) == "200";
    assert DecimalString(1) == "1" && DecimalString(19) == "19" && DecimalString(190) == "190";
  }
}
