/**
 * IndexedQuery: a map from keywords to the books indexed under them, the
 * search it serves and the invariant that makes that search exact.
 *
 * The invariant and its lemmas are stated for any keyword function
 * `kw: Book -> set<string>`; IndexedQuery uses `Keywords`, the keywords of
 * `getKeywords`. Nothing in them depends on what the keywords of a book are,
 * only on the whitespace split of the query.
 */
module Indexing {
  import opened JavaText
  import opened Books
  import opened Sorting
  import opened Outcomes
  import opened Query

  /** The keyword index: each keyword maps to the books indexed under it. */
  type KeywordIndex = map<string, set<Book>>

  /** `index.get(k)`, or no books when `k` is not a key. */
  function Bucket(index: KeywordIndex, k: string): set<Book> {
    if k in index then index[k] else {}
  }

  /** The union of the buckets of the given keywords. */
  function TokenBuckets(index: KeywordIndex, ts: seq<string>): set<Book> {
    if ts == [] then {} else TokenBuckets(index, ts[..|ts| - 1]) + Bucket(index, ts[|ts| - 1])
  }

  /** A book in the bucket of one of the keywords is in the union. */
  lemma {:induction false} TokenBucketsHas(index: KeywordIndex, ts: seq<string>, t: string, b: Book)
    requires t in ts && b in Bucket(index, t)
    ensures b in TokenBuckets(index, ts)
  {
    if t != ts[|ts| - 1] {
      assert t in ts[..|ts| - 1] by {
        var i :| 0 <= i < |ts| && ts[i] == t;
        assert ts[..|ts| - 1][i] == t;
      }
      TokenBucketsHas(index, ts[..|ts| - 1], t, b);
    }
  }

  /** A book in the union is in the bucket of one of the keywords. */
  lemma {:induction false} TokenBucketsFrom(index: KeywordIndex, ts: seq<string>, b: Book) returns (t: string)
    requires b in TokenBuckets(index, ts)
    ensures t in ts && b in Bucket(index, t)
  {
    if b in Bucket(index, ts[|ts| - 1]) {
      t := ts[|ts| - 1];
    } else {
      t := TokenBucketsFrom(index, ts[..|ts| - 1], b);
      var i :| 0 <= i < |ts| - 1 && ts[..|ts| - 1][i] == t;
      assert ts[i] == t;
    }
  }

  /** The books `find` gathers for `q` before restricting them to the given books. */
  function Gathered(index: KeywordIndex, q: string): set<Book> {
    Bucket(index, q) + TokenBuckets(index, Split(q))
  }

  /** The set of books `find(q, books)` lists. */
  function FindSet(index: KeywordIndex, q: string, books: set<Book>): set<Book> {
    Gathered(index, q) * books
  }

  /**
   * The index after `find(q, books)`: when `q` is itself a key, `find` adds
   * to and then restricts the very set stored under `q`, so that bucket
   * becomes the find set; no other bucket changes.
   */
  function AfterFind(index: KeywordIndex, q: string, books: set<Book>): (r: KeywordIndex)
    ensures r.Keys == index.Keys
    ensures forall k | k in r && k != q :: r[k] == index[k]
    ensures q in r ==> r[q] == FindSet(index, q, books)
  {
    if q in index then index[q := FindSet(index, q, books)] else index
  }

  /** The index after indexing `b` under the keywords `words`: `b` joins the bucket of each. */
  function IndexedWith(index: KeywordIndex, b: Book, words: set<string>): KeywordIndex {
    map k | k in index.Keys + words :: Bucket(index, k) + (if k in words then {b} else {})
  }

  /** Indexing under one more word puts the book into that word's bucket, created when missing. */
  lemma IndexedWithOneMore(index: KeywordIndex, b: Book, words: set<string>, w: string)
    ensures IndexedWith(index, b, words + {w}) ==
      IndexedWith(index, b, words)[w := Bucket(IndexedWith(index, b, words), w) + {b}]
  {
    var before := IndexedWith(index, b, words);
    var after := IndexedWith(index, b, words + {w});
    var stepped := before[w := Bucket(before, w) + {b}];
    assert after.Keys == stepped.Keys;
    forall k | k in after ensures after[k] == stepped[k] {
    }
  }

  /** Indexing under no words changes nothing. */
  lemma IndexedWithNothing(index: KeywordIndex, b: Book)
    ensures IndexedWith(index, b, {}) == index
  {
    var after := IndexedWith(index, b, {});
    assert after.Keys == index.Keys;
    forall k | k in after ensures after[k] == index[k] {
    }
  }

  /**
   * The search IndexedQuery promises: the book has the whole query as a
   * keyword, or one of the query's whitespace-separated words.
   */
  predicate MatchesBy(kw: Book -> set<string>, q: string, b: Book) {
    q in kw(b) || exists t | t in Split(q) :: t in kw(b)
  }

  /** The search of IndexedQuery, with the keywords of `getKeywords`. */
  predicate Matches(q: string, b: Book) {
    MatchesBy(Keywords, q, b)
  }

  /** Each live book is in the bucket of each of its keywords. */
  ghost predicate FilesLive(kw: Book -> set<string>, index: KeywordIndex, live: set<Book>) {
    forall b, k | b in live && k in kw(b) :: k in index && b in index[k]
  }

  /** Every book in a bucket matches that bucket's keyword. */
  ghost predicate OnlyMatching(kw: Book -> set<string>, index: KeywordIndex) {
    forall k, b {:trigger MatchesBy(kw, k, b)} | k in index && b in index[k] :: MatchesBy(kw, k, b)
  }

  /** The index serves the live books `live`. */
  ghost predicate IndexSound(kw: Book -> set<string>, index: KeywordIndex, live: set<Book>) {
    FilesLive(kw, index, live) && OnlyMatching(kw, index)
  }

  lemma EmptyIndexSound(kw: Book -> set<string>)
    ensures IndexSound(kw, map[], {})
  {
  }

  /** Indexing a book under its keywords makes the index serve it too. */
  lemma IndexPreservesSound(kw: Book -> set<string>, index: KeywordIndex, live: set<Book>, b: Book)
    requires IndexSound(kw, index, live)
    ensures IndexSound(kw, IndexedWith(index, b, kw(b)), live + {b})
  {
    IndexFiles(kw, index, live, b);
    IndexOnlyMatching(kw, index, b);
  }

  lemma IndexFiles(kw: Book -> set<string>, index: KeywordIndex, live: set<Book>, b: Book)
    requires FilesLive(kw, index, live)
    ensures FilesLive(kw, IndexedWith(index, b, kw(b)), live + {b})
  {
    var after := IndexedWith(index, b, kw(b));
    forall c, k | c in live + {b} && k in kw(c) ensures k in after && c in after[k] {
      if c != b {
        assert k in index && c in index[k];
      }
    }
  }

  lemma IndexOnlyMatching(kw: Book -> set<string>, index: KeywordIndex, b: Book)
    requires OnlyMatching(kw, index)
    ensures OnlyMatching(kw, IndexedWith(index, b, kw(b)))
  {
    var after := IndexedWith(index, b, kw(b));
    forall k, c | k in after && c in after[k] ensures MatchesBy(kw, k, c) {
      if c !in Bucket(index, k) {
        assert c == b && k in kw(b);
      }
    }
  }

  /** Indexing a book twice is the same as indexing it once. */
  lemma IndexIdempotent(index: KeywordIndex, b: Book, words: set<string>)
    ensures IndexedWith(IndexedWith(index, b, words), b, words) == IndexedWith(index, b, words)
  {
    var once := IndexedWith(index, b, words);
    var twice := IndexedWith(once, b, words);
    assert twice.Keys == once.Keys;
    forall k | k in twice ensures twice[k] == once[k] {
    }
  }

  /** An index that serves some books serves any fewer of them. */
  lemma SoundForFewer(kw: Book -> set<string>, index: KeywordIndex, live: set<Book>, fewer: set<Book>)
    requires IndexSound(kw, index, live) && fewer <= live
    ensures IndexSound(kw, index, fewer)
  {
  }

  /** A word of a query split on whitespace matches a book only as one of its keywords. */
  lemma TokenMatches(kw: Book -> set<string>, q: string, t: string, b: Book)
    requires t in Split(q) && MatchesBy(kw, t, b)
    ensures t in kw(b)
  {
    SplitTokenIsFixpoint(q, t);
  }

  /** Whatever `find` gathers from an index of matching books matches the query. */
  lemma GatheredMatches(kw: Book -> set<string>, index: KeywordIndex, q: string, b: Book)
    requires OnlyMatching(kw, index) && b in Gathered(index, q)
    ensures MatchesBy(kw, q, b)
  {
    if b !in Bucket(index, q) {
      var t := TokenBucketsFrom(index, Split(q), b);
      TokenMatches(kw, q, t, b);
    }
  }

  /** A live book that matches the query is gathered from an index that files it. */
  lemma MatchGathered(kw: Book -> set<string>, index: KeywordIndex, live: set<Book>, q: string, b: Book)
    requires FilesLive(kw, index, live) && b in live && MatchesBy(kw, q, b)
    ensures b in Gathered(index, q)
  {
    if q !in kw(b) {
      var t :| t in Split(q) && t in kw(b);
      assert b in Bucket(index, t);
      TokenBucketsHas(index, Split(q), t, b);
    }
  }

  lemma FindsMatch(kw: Book -> set<string>, index: KeywordIndex, live: set<Book>, q: string, b: Book)
    requires IndexSound(kw, index, live) && b in live
    ensures b in Gathered(index, q) <==> MatchesBy(kw, q, b)
  {
    if b in Gathered(index, q) {
      GatheredMatches(kw, index, q, b);
    }
    if MatchesBy(kw, q, b) {
      MatchGathered(kw, index, live, q, b);
    }
  }

  /** On a sound index, `find` lists exactly the live books that match the query. */
  lemma FindSetIsMatches(kw: Book -> set<string>, index: KeywordIndex, live: set<Book>, q: string, books: set<Book>)
    requires IndexSound(kw, index, live) && books <= live
    ensures FindSet(index, q, books) == set b | b in books && MatchesBy(kw, q, b)
  {
    forall b | b in books ensures b in FindSet(index, q, books) <==> MatchesBy(kw, q, b) {
      FindsMatch(kw, index, live, q, b);
    }
  }

  /**
   * The cache side effect of `find` is harmless: when `find` is given every
   * live book, the index still serves them afterwards.
   */
  lemma AfterFindSound(kw: Book -> set<string>, index: KeywordIndex, live: set<Book>, q: string, books: set<Book>)
    requires IndexSound(kw, index, live) && live <= books
    ensures IndexSound(kw, AfterFind(index, q, books), live)
  {
    var after := AfterFind(index, q, books);
    forall k, b | k in after && b in after[k] ensures MatchesBy(kw, k, b) {
      if k == q {
        GatheredMatches(kw, index, q, b);
      }
    }
  }

  /** A search repeated on the live books after another search gives the same books. */
  lemma FindRepeatable(kw: Book -> set<string>, index: KeywordIndex, live: set<Book>, q: string, q': string)
    requires IndexSound(kw, index, live)
    ensures FindSet(AfterFind(index, q, live), q', live) == FindSet(index, q', live)
  {
    AfterFindSound(kw, index, live, q, live);
    FindSetIsMatches(kw, index, live, q', live);
    FindSetIsMatches(kw, AfterFind(index, q, live), live, q', live);
  }

  /** `IndexedQuery`: a keyword index and the query the last `find` ranked by. */
  class IndexedQuery {
    var index: KeywordIndex
    var query: Option<string>

    constructor ()
      ensures index == map[] && query == None
    {
      index := map[];
      query := None;
    }

    /** `index(book)`: adds the book to the bucket of each of its keywords. */
    method Index(b: Book)
      modifies this
      ensures index == IndexedWith(old(index), b, Keywords(b))
      ensures query == old(query)
    {
      var words := GetKeywords(b);
      AddToBuckets(b, words);
    }

    /** The loop of `index(book)`: `b` joins the bucket of each word, created when missing. */
    method AddToBuckets(b: Book, words: set<string>)
      modifies this
      ensures index == IndexedWith(old(index), b, words)
      ensures query == old(query)
    {
      var rest := words;
      ghost var done: set<string> := {};
      IndexedWithNothing(index, b);
      while rest != {}
        invariant rest <= words && done == words - rest
        invariant index == IndexedWith(old(index), b, done)
        invariant query == old(query)
      {
        var word :| word in rest;
        IndexedWithOneMore(old(index), b, done, word);
        var booksValue := if word in index then index[word] else {};
        index := index[word := booksValue + {b}];
        rest := rest - {word};
        done := done + {word};
      }
    }

    /** The loop of `find`: the union of the buckets of the words, added to `from`. */
    method GatherTokens(from: set<Book>, keywords: seq<string>) returns (result: set<Book>)
      ensures result == from + TokenBuckets(index, keywords)
    {
      result := from;
      var i := 0;
      while i < |keywords|
        invariant 0 <= i <= |keywords|
        invariant result == from + TokenBuckets(index, keywords[..i])
      {
        assert keywords[..i + 1][..i] == keywords[..i];
        if keywords[i] in index {
          result := result + index[keywords[i]];
        }
        i := i + 1;
      }
      assert keywords[..i] == keywords;
    }

    /**
     * `find(q, books)`: the indexed books among `books` under `q` or one of
     * its words, each once, every neighbour pair in the order of the
     * comparator for `q`. Remembers `q`, and rewrites the bucket of `q`.
     */
    method Find(q: string, books: set<Book>) returns (r: seq<Book>)
      modifies this
      ensures query == Some(q)
      ensures index == AfterFind(old(index), q, books)
      ensures Distinct(r)
      ensures forall b :: b in r <==> b in FindSet(old(index), q, books)
      ensures AdjacentSorted(r, Order(q))
    {
      query := Some(q);
      var result := if q in index then index[q] else {};
      result := GatherTokens(result, Split(q));
      result := result * books;
      if q in index {
        index := index[q := result];
      }
      var resultList := SetToSeq(result);
      r := Sort(resultList, Order(q));
      SortDistinct(resultList, Order(q));
      OrderAntisymmetric(q);
      SortAdjacentSorted(resultList, Order(q));
    }
  }
}
