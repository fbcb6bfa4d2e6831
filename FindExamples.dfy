/**
 * The sample library of the BigLibrary tests: "This Is Home" and "Home Is
 * This", both by Author (1900), and "Home Is" by Author and This (2000). The
 * lemmas here work out their keywords and match scores and show that `find`
 * can list them in one order only for each of the queries "2000",
 * "This Is Home" and "Home Is".
 */
module FindExamples {
  import opened JavaText
  import opened Books
  import opened Sorting
  import opened Query
  import opened Indexing
  import opened BigLib

  const Book1: Book := Book("This Is Home", ["Author"], 1900)
  const Book2: Book := Book("Home Is This", ["Author"], 1900)
  const Book3: Book := Book("Home Is", ["Author", "This"], 2000)

  // ---------------------------------------------------------------------------
  // Keywords of books of these shapes
  // ---------------------------------------------------------------------------

  /** A word in front of a list it does not occur in stays, in front. */
  lemma DedupKeep(x: string, s: seq<string>, r: seq<string>)
    requires x !in s && Dedup(s) == r
    ensures Dedup([x] + s) == [x] + r
  {
    assert ([x] + s)[1..] == s;
  }

  /** A word in front of a list it occurs in again is dropped there. */
  lemma DedupDrop(x: string, s: seq<string>, r: seq<string>)
    requires x in s && Dedup(s) == r
    ensures Dedup([x] + s) == r
  {
    assert ([x] + s)[1..] == s;
  }

  /** A prefix without repetitions that shares no word with the rest is kept whole. */
  lemma {:induction false} DedupDistinctPrefix(p: seq<string>, s: seq<string>)
    requires Distinct(p) && forall w | w in p :: w !in s
    ensures Dedup(p + s) == p + Dedup(s)
  {
    if p != [] {
      assert (p + s)[1..] == p[1..] + s;
      assert Distinct(p[1..]) by {
        assert forall i | 0 <= i < |p[1..]| :: p[1..][i] == p[i + 1];
      }
      DedupDistinctPrefix(p[1..], s);
      assert p[0] !in p[1..] + s;
      assert p == [p[0]] + p[1..];
    } else {
      assert p + s == s;
    }
  }

  /** The keywords of a book by one one-word author, with the author twice, each kept once. */
  lemma DedupOneAuthor(t: string, w1: string, w2: string, w3: string, a: string, y: string)
    requires Distinct([t, w1, w2, w3, a, y])
    ensures Dedup([t, w1, w2, w3, a, a, y]) == [t, w1, w2, w3, a, y]
  {
    var s := [t, w1, w2, w3, a, y];
    var p := [t, w1, w2, w3];
    assert p + [a, a, y] == [t, w1, w2, w3, a, a, y];
    assert p + [a, y] == s;
    assert Distinct(p) by {
      assert forall i | 0 <= i < |p| :: p[i] == s[i];
    }
    assert forall w | w in p :: w !in [a, a, y] by {
      assert forall i | 0 <= i < |p| :: p[i] == s[i];
      assert s[4] == a && s[5] == y;
    }
    DedupDistinctPrefix(p, [a, a, y]);
    assert Dedup([a, a, y]) == [a, y] by {
      assert s[4] != s[5];
      DedupKeep(y, [], []);
      assert [y] + [] == [y];
      DedupKeep(a, [y], [y]);
      DedupDrop(a, [a, y], [a, y]);
      assert [a] + [a, y] == [a, a, y];
    }
  }

  /** A book "w1 w2 w3" by one one-word author is indexed under its title, its words, the author and the year. */
  lemma OneAuthorKeywordList(t: string, w1: string, w2: string, w3: string, a: string, year: nat)
    requires Split(t) == [w1, w2, w3] && NoSpace(a)
    requires Distinct([t, w1, w2, w3, a, DecimalString(year)])
    ensures KeywordList(Book(t, [a], year)) == [t, w1, w2, w3, a, DecimalString(year)]
  {
    AuthorWordsOne(a);
    assert KeywordSeq(Book(t, [a], year)) == [t, w1, w2, w3, a, a, DecimalString(year)];
    DedupOneAuthor(t, w1, w2, w3, a, DecimalString(year));
  }

  /** Two authors listed twice before the year: each kept once. */
  lemma DedupAuthorsTwice(a1: string, a2: string, y: string)
    requires a1 != a2 && a1 != y && a2 != y
    ensures Dedup([a1, a2, a1, a2, y]) == [a1, a2, y]
  {
    DedupKeep(y, [], []);
    assert [y] + [] == [y];
    DedupKeep(a2, [y], [y]);
    DedupKeep(a1, [a2, y], [a2, y]);
    assert [a1] + [a2, y] == [a1, a2, y];
    DedupDrop(a2, [a1, a2, y], [a1, a2, y]);
    assert [a2] + [a1, a2, y] == [a2, a1, a2, y];
    DedupDrop(a1, [a2, a1, a2, y], [a1, a2, y]);
    assert [a1] + [a2, a1, a2, y] == [a1, a2, a1, a2, y];
  }

  /** The keywords of a book by two one-word authors, with the authors twice, each kept once. */
  lemma DedupTwoAuthors(t: string, w1: string, w2: string, a1: string, a2: string, y: string)
    requires Distinct([t, w1, w2, a1, a2, y])
    ensures Dedup([t, w1, w2, a1, a2, a1, a2, y]) == [t, w1, w2, a1, a2, y]
  {
    var s := [t, w1, w2, a1, a2, y];
    var p := [t, w1, w2];
    var rest := [a1, a2, a1, a2, y];
    assert p + rest == [t, w1, w2, a1, a2, a1, a2, y];
    assert p + [a1, a2, y] == s;
    assert Distinct(p) && forall w | w in p :: w !in rest by {
      assert forall i | 0 <= i < |p| :: p[i] == s[i];
      assert s[3] == a1 && s[4] == a2 && s[5] == y;
    }
    assert Dedup(rest) == [a1, a2, y] by {
      assert s[3] != s[4] && s[3] != s[5] && s[4] != s[5];
      DedupAuthorsTwice(a1, a2, y);
    }
    DedupDistinctPrefix(p, rest);
  }

  /** A book "w1 w2" by two one-word authors is indexed under its title, its words, the authors and the year. */
  lemma TwoAuthorKeywordList(t: string, w1: string, w2: string, a1: string, a2: string, year: nat)
    requires Split(t) == [w1, w2] && NoSpace(a1) && NoSpace(a2)
    requires Distinct([t, w1, w2, a1, a2, DecimalString(year)])
    ensures KeywordList(Book(t, [a1, a2], year)) == [t, w1, w2, a1, a2, DecimalString(year)]
  {
    assert AuthorWords([a1, a2]) == [a1, a2] by {
      SplitOneWord(a1);
      assert [a1, a2][1..] == [a2];
      AuthorWordsOne(a2);
    }
    assert KeywordSeq(Book(t, [a1, a2], year)) == [t, w1, w2, a1, a2, a1, a2, DecimalString(year)];
    DedupTwoAuthors(t, w1, w2, a1, a2, DecimalString(year));
  }

  // ---------------------------------------------------------------------------
  // Scores of six keywords
  // ---------------------------------------------------------------------------

  /** The characters of the words of `ws` that are query words. */
  function MatchedTotal(ws: seq<string>, qw: seq<string>): nat {
    if ws == [] then 0 else MatchedLength(ws[0], qw) + MatchedTotal(ws[1..], qw)
  }

  /** A partial score counts the characters of the keywords that are query words. */
  lemma {:induction false} PartialScoreMatched(ws: seq<string>, qw: seq<string>)
    ensures PartialScore(ws, qw) == Score(MatchedTotal(ws, qw), TotalLength(ws))
  {
    MatchedChars(ws, qw);
  }

  lemma {:induction false} MatchedChars(ws: seq<string>, qw: seq<string>)
    ensures TotalLength(ws) - TotalLength(Unmatched(ws, qw)) == MatchedTotal(ws, qw)
  {
    if ws != [] {
      MatchedChars(ws[1..], qw);
      if ws[0] !in qw {
        var u := Unmatched(ws[1..], qw);
        assert ([ws[0]] + u)[1..] == u;
      }
    }
  }

  /** One more keyword in front adds its characters, and adds them to the matched ones when it is a query word. */
  lemma ConsTotals(x: string, s: seq<string>, qw: seq<string>)
    ensures TotalLength([x] + s) == |x| + TotalLength(s)
    ensures MatchedTotal([x] + s, qw) == MatchedLength(x, qw) + MatchedTotal(s, qw)
  {
    assert ([x] + s)[1..] == s;
  }

  /** The characters of six keywords, and those of the ones that are query words. */
  lemma SixWordScore(x1: string, x2: string, x3: string, x4: string, x5: string, x6: string, qw: seq<string>)
    ensures PartialScore([x1, x2, x3, x4, x5, x6], qw) ==
      Score(MatchedLength(x1, qw) + MatchedLength(x2, qw) + MatchedLength(x3, qw) +
            MatchedLength(x4, qw) + MatchedLength(x5, qw) + MatchedLength(x6, qw),
            |x1| + |x2| + |x3| + |x4| + |x5| + |x6|)
  {
    var s6 := [x6];
    ConsTotals(x6, [], qw);
    assert [x6] + [] == s6;
    var s5 := [x5] + s6;
    ConsTotals(x5, s6, qw);
    var s4 := [x4] + s5;
    ConsTotals(x4, s5, qw);
    var s3 := [x3] + s4;
    ConsTotals(x3, s4, qw);
    var s2 := [x2] + s3;
    ConsTotals(x2, s3, qw);
    var s1 := [x1] + s2;
    ConsTotals(x1, s2, qw);
    assert s1 == [x1, x2, x3, x4, x5, x6];
    PartialScoreMatched(s1, qw);
  }

  // ---------------------------------------------------------------------------
  // The words of the sample strings
  // ---------------------------------------------------------------------------

  lemma SplitThree(a: string, b: string, c: string)
    requires NoSpace(a) && NoSpace(b) && NoSpace(c) && a != [] && b != [] && c != []
    ensures Split(a + " " + b + " " + c) == [a, b, c]
  {
    SplitOneWord(c);
    SplitCons(b, ' ', c);
    SplitCons(a, ' ', b + " " + c);
    assert a + " " + b + " " + c == a + [' '] + (b + [' '] + c);
  }

  lemma SplitTwo(a: string, b: string)
    requires NoSpace(a) && NoSpace(b) && a != [] && b != []
    ensures Split(a + " " + b) == [a, b]
  {
    SplitOneWord(b);
    SplitCons(a, ' ', b);
  }

  /** The words of the sample strings have no separators. */
  lemma SampleWordsNoSpace()
    ensures NoSpace("This") && NoSpace("Is") && NoSpace("Home") && NoSpace("Author") && NoSpace("2000")
  {
  }

  lemma ThisIsHomeWords()
    ensures Split("This Is Home") == ["This", "Is", "Home"]
  {
    SampleWordsNoSpace();
    SplitThree("This", "Is", "Home");
    assert "This" + " " + "Is" + " " + "Home" == "This Is Home";
  }

  lemma HomeIsThisWords()
    ensures Split("Home Is This") == ["Home", "Is", "This"]
  {
    SampleWordsNoSpace();
    SplitThree("Home", "Is", "This");
    assert "Home" + " " + "Is" + " " + "This" == "Home Is This";
  }

  lemma HomeIsWords()
    ensures Split("Home Is") == ["Home", "Is"]
  {
    SampleWordsNoSpace();
    SplitTwo("Home", "Is");
    assert "Home" + " " + "Is" == "Home Is";
  }

  /** Six pairwise different words form a list without repetitions. */
  lemma SixDistinct(x1: string, x2: string, x3: string, x4: string, x5: string, x6: string)
    requires x1 != x2 && x1 != x3 && x1 != x4 && x1 != x5 && x1 != x6
    requires x2 != x3 && x2 != x4 && x2 != x5 && x2 != x6
    requires x3 != x4 && x3 != x5 && x3 != x6
    requires x4 != x5 && x4 != x6 && x5 != x6
    ensures Distinct([x1, x2, x3, x4, x5, x6])
  {
  }

  /** The same-length words of the sample books differ in their first letter. */
  lemma SampleWordsDiffer()
    ensures "This" != "Home" && "This" != "1900" && "This" != "2000"
    ensures "Home" != "1900" && "Home" != "2000" && "1900" != "2000" && "This Is Home" != "Home Is This"
  {
    assert "This"[0] == 'T' && "Home"[0] == 'H' && "1900"[0] == '1' && "2000"[0] == '2';
    assert "This Is Home"[0] == 'T' && "Home Is This"[0] == 'H';
  }

  lemma Book1Keywords()
    ensures KeywordList(Book1) == ["This Is Home", "This", "Is", "Home", "Author", "1900"]
  {
    SampleWordsNoSpace();
    ThisIsHomeWords();
    CycleYears();
    SampleWordsDiffer();
    SixDistinct("This Is Home", "This", "Is", "Home", "Author", "1900");
    OneAuthorKeywordList("This Is Home", "This", "Is", "Home", "Author", 1900);
  }

  lemma Book2Keywords()
    ensures KeywordList(Book2) == ["Home Is This", "Home", "Is", "This", "Author", "1900"]
  {
    SampleWordsNoSpace();
    HomeIsThisWords();
    CycleYears();
    SampleWordsDiffer();
    SixDistinct("Home Is This", "Home", "Is", "This", "Author", "1900");
    OneAuthorKeywordList("Home Is This", "Home", "Is", "This", "Author", 1900);
  }

  lemma Book3Keywords()
    ensures KeywordList(Book3) == ["Home Is", "Home", "Is", "Author", "This", "2000"]
  {
    SampleWordsNoSpace();
    HomeIsWords();
    CycleYears();
    SampleWordsDiffer();
    SixDistinct("Home Is", "Home", "Is", "Author", "This", "2000");
    TwoAuthorKeywordList("Home Is", "Home", "Is", "Author", "This", 2000);
  }

  // ---------------------------------------------------------------------------
  // Scores and order under the sample queries
  // ---------------------------------------------------------------------------

  /** A partial match of a book with six keywords is scored on them. */
  lemma SixKeywordMatchScore(q: string, b: Book, x1: string, x2: string, x3: string, x4: string, x5: string, x6: string)
    requires q != b.title && q !in b.authors && q != IntToString(b.year)
    requires KeywordList(b) == [x1, x2, x3, x4, x5, x6]
    ensures MatchScore(q, b) ==
      Score(MatchedLength(x1, Split(q)) + MatchedLength(x2, Split(q)) + MatchedLength(x3, Split(q)) +
            MatchedLength(x4, Split(q)) + MatchedLength(x5, Split(q)) + MatchedLength(x6, Split(q)),
            |x1| + |x2| + |x3| + |x4| + |x5| + |x6|)
  {
    SixWordScore(x1, x2, x3, x4, x5, x6, Split(q));
  }

  /** Which keywords of the sample books are words of "This Is Home", and their lengths. */
  lemma ThisIsHomeMatched()
    ensures var qw := ["This", "Is", "Home"];
      MatchedLength("Home Is This", qw) == 0 && MatchedLength("Home Is", qw) == 0 &&
      MatchedLength("This", qw) == 4 && MatchedLength("Is", qw) == 2 && MatchedLength("Home", qw) == 4 &&
      MatchedLength("Author", qw) == 0 && MatchedLength("1900", qw) == 0 && MatchedLength("2000", qw) == 0
  {
    SampleWordsDiffer();
  }

  /** Which keywords of the sample books are words of "Home Is". */
  lemma HomeIsMatched()
    ensures var qw := ["Home", "Is"];
      MatchedLength("This Is Home", qw) == 0 && MatchedLength("Home Is This", qw) == 0 &&
      MatchedLength("This", qw) == 0 && MatchedLength("Is", qw) == 2 && MatchedLength("Home", qw) == 4 &&
      MatchedLength("Author", qw) == 0 && MatchedLength("1900", qw) == 0
  {
    SampleWordsDiffer();
  }

  /** Under a query of the words "This", "Is" and "Home", "Home Is This" matches 10 of its 32 keyword characters. */
  lemma ThisIsHomeScore2(q: string)
    requires Split(q) == ["This", "Is", "Home"] && q != "Home Is This" && q != "Author" && q != "1900"
    ensures MatchScore(q, Book2) == Score(10, 32)
  {
    CycleYears();
    ThisIsHomeMatched();
    Book2Keywords();
    SixKeywordMatchScore(q, Book2, "Home Is This", "Home", "Is", "This", "Author", "1900");
  }

  /** Under a query of the words "This", "Is" and "Home", "Home Is" matches 10 of its 27 keyword characters. */
  lemma ThisIsHomeScore3(q: string)
    requires Split(q) == ["This", "Is", "Home"] && q != "Home Is" && q != "Author" && q != "This" && q != "2000"
    ensures MatchScore(q, Book3) == Score(10, 27)
  {
    CycleYears();
    ThisIsHomeMatched();
    Book3Keywords();
    SixKeywordMatchScore(q, Book3, "Home Is", "Home", "Is", "Author", "This", "2000");
  }

  /** Under a query of the words "Home" and "Is", "This Is Home" matches 6 of its 32 keyword characters. */
  lemma HomeIsScore1(q: string)
    requires Split(q) == ["Home", "Is"] && q != "This Is Home" && q != "Author" && q != "1900"
    ensures MatchScore(q, Book1) == Score(6, 32)
  {
    CycleYears();
    HomeIsMatched();
    Book1Keywords();
    SixKeywordMatchScore(q, Book1, "This Is Home", "This", "Is", "Home", "Author", "1900");
  }

  /** Under a query of the words "Home" and "Is", "Home Is This" matches 6 of its 32 keyword characters. */
  lemma HomeIsScore2(q: string)
    requires Split(q) == ["Home", "Is"] && q != "Home Is This" && q != "Author" && q != "1900"
    ensures MatchScore(q, Book2) == Score(6, 32)
  {
    CycleYears();
    HomeIsMatched();
    Book2Keywords();
    SixKeywordMatchScore(q, Book2, "Home Is This", "Home", "Is", "This", "Author", "1900");
  }

  /**
   * The scores under "This Is Home": the exact title scores 4, "Home Is"
   * matches 10 of its 27 keyword characters and "Home Is This" 10 of its 32.
   */
  lemma ThisIsHomeScores(q: string)
    requires q == Book1.title && Split(q) == ["This", "Is", "Home"]
    ensures MatchScore(q, Book1) == Score(4, 1)
    ensures MatchScore(q, Book2) == Score(10, 32)
    ensures MatchScore(q, Book3) == Score(10, 27)
  {
    SampleWordsDiffer();
    ThisIsHomeScore2(q);
    ThisIsHomeScore3(q);
  }

  /**
   * The scores under "Home Is": the exact title scores 4, and both other
   * books match 6 of their 32 keyword characters.
   */
  lemma HomeIsScores(q: string)
    requires q == Book3.title && Split(q) == ["Home", "Is"]
    ensures MatchScore(q, Book1) == Score(6, 32)
    ensures MatchScore(q, Book2) == Score(6, 32)
    ensures MatchScore(q, Book3) == Score(4, 1)
  {
    HomeIsScore1(q);
    HomeIsScore2(q);
  }

  /** Under "This Is Home" the comparator puts the first book before the third, and the third before the second. */
  lemma ThisIsHomeCompares(q: string)
    requires q == Book1.title && Split(q) == ["This", "Is", "Home"]
    ensures Compare(q, Book3, Book1) > 0 && Compare(q, Book2, Book3) > 0 && Compare(q, Book2, Book1) > 0
  {
    ThisIsHomeScores(q);
    CompareByScore(q, Book3, Book1);
    CompareByScore(q, Book2, Book3);
    CompareByScore(q, Book2, Book1);
  }

  /** Between different works, the one with the lower score comes after. */
  lemma CompareByScore(q: string, o1: Book, o2: Book)
    requires !SameAs(o1, o2) && ScoreLess(MatchScore(q, o1), MatchScore(q, o2))
    ensures Compare(q, o1, o2) > 0
  {
  }

  /** Between different works with equal scores, the title decides. */
  lemma CompareByTitle(q: string, o1: Book, o2: Book)
    requires !SameAs(o1, o2) && ScoreSame(MatchScore(q, o1), MatchScore(q, o2))
    ensures Compare(q, o1, o2) == CompareStrings(o1.title, o2.title)
  {
  }

  /** "This Is Home" sorts after "Home Is This": 'T' comes after 'H'. */
  lemma SampleTitlesCompare()
    ensures CompareStrings(Book1.title, Book2.title) == 1
  {
    assert Book1.title[0] == 'T' && Book2.title[0] == 'H';
  }

  /**
   * Under "Home Is" the comparator puts the third book first; the other two
   * tie on score, and "Home Is This" comes before "This Is Home" by title.
   */
  lemma HomeIsCompares(q: string)
    requires q == Book3.title && Split(q) == ["Home", "Is"]
    ensures Compare(q, Book2, Book3) > 0 && Compare(q, Book1, Book2) > 0 && Compare(q, Book1, Book3) > 0
  {
    HomeIsScores(q);
    CompareByScore(q, Book2, Book3);
    CompareByScore(q, Book1, Book3);
    CompareByTitle(q, Book1, Book2);
    SampleTitlesCompare();
  }

  // ---------------------------------------------------------------------------
  // What `find` returns
  // ---------------------------------------------------------------------------

  /** Every sample book has a keyword among the words "This", "Is", "Home". */
  lemma ThisIsHomeMatchesAll(q: string)
    requires Split(q) == ["This", "Is", "Home"]
    ensures Matches(q, Book1) && Matches(q, Book2) && Matches(q, Book3)
  {
    Book1Keywords();
    Book2Keywords();
    Book3Keywords();
    KeywordListMembers(Book1);
    KeywordListMembers(Book2);
    KeywordListMembers(Book3);
    assert "Home" in Split(q);
    assert "Home" in KeywordList(Book1) && "Home" in KeywordList(Book2) && "Home" in KeywordList(Book3);
  }

  /** Every sample book has a keyword among the words "Home", "Is". */
  lemma HomeIsMatchesAll(q: string)
    requires Split(q) == ["Home", "Is"]
    ensures Matches(q, Book1) && Matches(q, Book2) && Matches(q, Book3)
  {
    Book1Keywords();
    Book2Keywords();
    Book3Keywords();
    KeywordListMembers(Book1);
    KeywordListMembers(Book2);
    KeywordListMembers(Book3);
    assert "Home" in Split(q);
    assert "Home" in KeywordList(Book1) && "Home" in KeywordList(Book2) && "Home" in KeywordList(Book3);
  }

  /** A one-word query matches a book exactly when it is one of the book's keywords. */
  lemma MatchesOneWord(q: string, b: Book, ws: seq<string>)
    requires Split(q) == [q] && KeywordList(b) == ws
    ensures Matches(q, b) <==> q in ws
  {
    KeywordListMembers(b);
  }

  /** Only the 2000 book has the keyword "2000". */
  lemma TwoThousandMatches(q: string)
    requires q == "2000" && Split(q) == [q]
    ensures Matches(q, Book3) && !Matches(q, Book1) && !Matches(q, Book2)
  {
    var list1 := ["This Is Home", "This", "Is", "Home", "Author", "1900"];
    var list2 := ["Home Is This", "Home", "Is", "This", "Author", "1900"];
    var list3 := ["Home Is", "Home", "Is", "Author", "This", "2000"];
    assert Matches(q, Book1) <==> q in list1 by {
      Book1Keywords();
      MatchesOneWord(q, Book1, list1);
    }
    assert Matches(q, Book2) <==> q in list2 by {
      Book2Keywords();
      MatchesOneWord(q, Book2, list2);
    }
    assert Matches(q, Book3) <==> q in list3 by {
      Book3Keywords();
      MatchesOneWord(q, Book3, list3);
    }
    SampleWordsDiffer();
    assert list3[5] == q;
  }

  /** The sample books are three different books. */
  lemma SampleBooksDiffer()
    ensures Book1 != Book2 && Book1 != Book3 && Book2 != Book3
  {
    SampleWordsDiffer();
  }

  /**
   * When three books all match and the comparator puts them in the order
   * a, b, c, the only list of the matches, each once, with neighbours in
   * order, is [a, b, c].
   */
  lemma FindOfThree(q: string, books: set<Book>, r: seq<Book>, a: Book, b: Book, c: Book)
    requires books == {a, b, c} && a != b && a != c && b != c
    requires Matches(q, a) && Matches(q, b) && Matches(q, c)
    requires Compare(q, b, a) > 0 && Compare(q, c, b) > 0 && Compare(q, c, a) > 0
    requires Distinct(r) && forall x :: x in r <==> x in books && Matches(q, x)
    requires AdjacentSorted(r, Order(q))
    ensures r == [a, b, c]
  {
    SortedThreeUnique(r, a, b, c, Order(q));
  }

  /** A set of three, listed in another order. */
  lemma SetOfThreeSwapped(a: Book, b: Book, c: Book)
    ensures {a, b, c} == {a, c, b}
  {
  }

  /** A set of three, listed backwards. */
  lemma SetOfThreeReversed(a: Book, b: Book, c: Book)
    ensures {a, b, c} == {c, b, a}
  {
  }

  /**
   * A list `find("This Is Home")` may return on the sample library (each
   * matching book once, neighbours in the comparator's order) is the exact
   * title, then "Home Is", then "Home Is This".
   */
  lemma FindThisIsHomeOrder(q: string, books: set<Book>, r: seq<Book>)
    requires q == Book1.title && Split(q) == ["This", "Is", "Home"]
    requires books == {Book1, Book2, Book3}
    requires Distinct(r) && forall b :: b in r <==> b in books && Matches(q, b)
    requires AdjacentSorted(r, Order(q))
    ensures r == [Book1, Book3, Book2]
  {
    ThisIsHomeMatchesAll(q);
    ThisIsHomeCompares(q);
    SampleBooksDiffer();
    SetOfThreeSwapped(Book1, Book2, Book3);
    FindOfThree(q, books, r, Book1, Book3, Book2);
  }

  /**
   * A list `find("Home Is")` may return on the sample library is the exact
   * title, then "Home Is This", then "This Is Home".
   */
  lemma FindHomeIsOrder(q: string, books: set<Book>, r: seq<Book>)
    requires q == Book3.title && Split(q) == ["Home", "Is"]
    requires books == {Book1, Book2, Book3}
    requires Distinct(r) && forall b :: b in r <==> b in books && Matches(q, b)
    requires AdjacentSorted(r, Order(q))
    ensures r == [Book3, Book2, Book1]
  {
    HomeIsMatchesAll(q);
    HomeIsCompares(q);
    SampleBooksDiffer();
    SetOfThreeReversed(Book1, Book2, Book3);
    FindOfThree(q, books, r, Book3, Book2, Book1);
  }

  /** A list `find("2000")` may return on the sample library holds the 2000 book alone. */
  lemma FindTwoThousand(q: string, books: set<Book>, r: seq<Book>)
    requires q == "2000" && Split(q) == [q]
    requires books == {Book1, Book2, Book3}
    requires Distinct(r) && forall b :: b in r <==> b in books && Matches(q, b)
    ensures r == [Book3]
  {
    TwoThousandMatches(q);
    FindOneOfThree(q, books, r, Book3, Book1, Book2);
  }

  /**
   * When of the three books b, c, a only a matches the query, the only list
   * of the matches, each once, is [a].
   */
  lemma FindOneOfThree(q: string, books: set<Book>, r: seq<Book>, a: Book, b: Book, c: Book)
    requires books == {b, c, a}
    requires Matches(q, a) && !Matches(q, b) && !Matches(q, c)
    requires Distinct(r) && forall x :: x in r <==> x in books && Matches(q, x)
    ensures r == [a]
  {
    DistinctCount(r);
    assert (set x | x in r) == {a};
    assert r[0] in r;
  }

  /** A copy of a book new to the library: the library tracks one more book. */
  method BuyNew(library: BigLibrary, b: Book)
    requires library.Valid() && b !in library.collection
    modifies library, library.queryStrategy
    ensures library.Valid() && library.collection.Keys == old(library.collection.Keys) + {b}
  {
    var copy := library.Buy(b);
  }

  /** Two copies of a book new to the library: the library tracks one more book. */
  method BuyTwice(library: BigLibrary, b: Book)
    requires library.Valid() && b !in library.collection
    modifies library, library.queryStrategy
    ensures library.Valid() && library.collection.Keys == old(library.collection.Keys) + {b}
  {
    var copy := library.Buy(b);
    copy := library.Buy(b);
  }

  /** The library of the keyword-match test: two copies of `b2`, two of `b3`, then one of `b1`. */
  method SampleLibrary(b1: Book, b2: Book, b3: Book) returns (library: BigLibrary)
    requires b1 != b2 && b1 != b3 && b2 != b3
    ensures fresh(library) && fresh(library.queryStrategy)
    ensures library.Valid() && library.collection.Keys == {b1, b2, b3}
  {
    library := new BigLibrary();
    BuyTwice(library, b2);
    assert library.collection.Keys == {b2};
    BuyTwice(library, b3);
    assert library.collection.Keys == {b2, b3};
    BuyNew(library, b1);
  }

  /**
   * The BigLibrary test of keyword matches: `find` on the sample library for
   * "2000", "This Is Home" and "Home Is".
   */
  method FindMatchKeywords() returns (found2000: seq<Book>, foundThisIsHome: seq<Book>, foundHomeIs: seq<Book>)
    ensures found2000 == [Book3]
    ensures foundThisIsHome == [Book1, Book3, Book2]
    ensures foundHomeIs == [Book3, Book2, Book1]
  {
    SampleBooksDiffer();
    var library := SampleLibrary(Book1, Book2, Book3);
    found2000 := library.Find("2000");
    SampleWordsNoSpace();
    SplitOneWord("2000");
    FindTwoThousand("2000", library.collection.Keys, found2000);
    foundThisIsHome := library.Find("This Is Home");
    ThisIsHomeWords();
    FindThisIsHomeOrder("This Is Home", library.collection.Keys, foundThisIsHome);
    foundHomeIs := library.Find("Home Is");
    HomeIsWords();
    FindHomeIsOrder("Home Is", library.collection.Keys, foundHomeIs);
  }
}
