# Library and tweet analysis, modelled in Dafny

This project models two small Java programs.

**The library (`ps3-library`).**
- A `Book` is an immutable value: a title, a list of authors and a year.
- A `BookCopy` is one physical copy of a book. Copies are compared by identity, and each has a condition (good or damaged) that can change.
- Two libraries track copies on the shelf and copies checked out:
  - `SmallLibrary` keeps two sets of copies.
  - `BigLibrary` keeps a map from each book to its `BookList` ledger, and files every book in a keyword index (`IndexedQuery`) the first time a copy of it is bought.
- `find` comes in two versions:
  - The simple one matches a query exactly against titles and authors, and returns the newest book first.
  - The indexed one also matches on any keyword: a word of the title, a word of an author's name, or the year. It orders the results by a match score.

**The tweet analysis (`ps2-tweets`).**
- `Extract` computes three things from a list of tweets:
  - the time span they cover;
  - the users they @-mention;
  - for each hashtag, the users who used it.
- `SocialNetwork` guesses a follows graph. Authors follow whomever they mention and whoever shares a hashtag with them.
- It then ranks the users of a follows graph by follower count.

**Files.**
- `Book.dfy`, `BookList.dfy`, `SmallLibrary.dfy` and `BigLibrary.dfy` model the library classes. Classes whose fields change in place are Dafny classes, and their methods are specified over their fields.
- `QueryStrategy.dfy` holds the keyword extraction, the match score, the result order and the simple query.
- `KeywordIndex.dfy` holds the indexed query: a class whose `index` map and `query` field the methods update.
  - Its index invariant (`IndexSound`) is stated over any keyword function. `BigLibrary` instantiates it with `Keywords`.
  - The invariant says two things. Every tracked book is filed under each of its keywords. A book is filed under a key only if it matches that key exactly or shares a keyword with one of the key's words.
- `JavaText.dfy` models the Java library behaviour the code relies on:
  - `split("\\s")`;
  - `Integer.toString`;
  - `String.compareTo`, as a sign;
  - ASCII `toLowerCase`;
  - the left padding of `String.format("%2s")`.
- `Sorting.dfy` holds an insertion sort. It stands in for `Collections.sort` and `Stream.sorted`.
- `Outcomes.dfy` holds `Option`, `Result` and the Java exceptions thrown on error paths. An exception is a `Fail` outcome.
- `Extract.dfy` and `SocialNetwork.dfy` model the tweet code. Its loops are methods proved equal to reference functions, and the properties are lemmas about those functions.

**Modelling decisions.**
- Regular expressions:
  - Java's regular-expression matching is modelled by predicates that say where a match starts. The find loop is a scanner proved to collect exactly the words those predicates describe.
  - The character class `[a-zA-z0-9-_]` is modelled as written. `A-z` spans every character from `A` to `z`, including `[`, `\`, `]`, `^` and the backquote.
- The rep invariant of `Book` asks for `year >= 0`, as the code asserts. The comment beside it says greater than 0.
- The `matchScore` of the indexed query is a `double` in Java. Here it is an exact fraction `Score(num, den)`, and scores are compared by cross-multiplying.
- The comparator of the indexed query is not transitive: `Query.OrderNotTransitive` exhibits a cycle. So the model promises only what the sort guarantees for an antisymmetric comparator: every neighbouring pair of the result is in order.

## Model

| member | source | states |
|---|---|---|
| Books.NewBookAsWritten | ps3-library/src/library/Book.java:38-53 | construction as written: succeeds exactly when the year is nonnegative, there is an author and the title matches `.*[^ ]+.*`; the fields are kept; otherwise the assertion fails |
| Books.NewBook | ps3-library/src/library/Book.java:21-53 | the corrected constructor: succeeds exactly when the year is nonnegative, there is an author and the title has a non-space character, as the rep invariant states; the fields are kept; otherwise the assertion fails |
| Books.NewBookAsWrittenOnOneLine | ps3-library/src/library/Book.java:52 | on a title without line terminators the constructor as written and the corrected one agree |
| Books.NewBookAsWrittenRejectsMultiLineTitle | ps3-library/src/library/Book.java:52 | the constructor as written rejects the title "\n \n", which the corrected one accepts |
| Books.TitlePatternNeedsNonBlank | ps3-library/src/library/Book.java:52 | a title the pattern `.*[^ ]+.*` accepts has a non-space character |
| Books.TitlePatternOnOneLine | ps3-library/src/library/Book.java:52 | on a title without line terminators the pattern accepts exactly the titles with a non-space character |
| Books.TitlePatternRejectsMultiLineTitle | ps3-library/src/library/Book.java:52 | the pattern rejects "\n \n", although it has non-space characters |
| Books.BookEquality | ps3-library/src/library/Book.java:105-123 | two books are equal iff their authors, titles and years are equal |
| Books.SameAsAndYear | ps3-library/src/library/Book.java:125-127 | two books are equal iff they are `sameAs` each other and have the same year |
| Books.SameAsEquivalence | ps3-library/src/library/Book.java:125-127 | `sameAs` is reflexive, symmetric and transitive |
| Books.JoinShowsParts | ps3-library/src/library/Book.java:83-90 | every author appears in the `"; "`-joined author list |
| Books.RenderingShowsTitle | ps3-library/src/library/Book.java:82 | the rendering starts with the title |
| Books.RenderingShowsYear | ps3-library/src/library/Book.java:82 | the year string appears in the rendering |
| Books.RenderingShowsAuthors | ps3-library/src/library/Book.java:82-90 | any text within the author list appears in the rendering |
| Books.BookStringShowsTitle | ps3-library/src/library/Book.java:80-93 | `toString` starts with the title |
| Books.BookStringShowsYear | ps3-library/src/library/Book.java:80-93 | `toString` contains `Integer.toString(year)` |
| Books.BookStringShowsAuthors | ps3-library/src/library/Book.java:80-93 | `toString` contains every author |
| Books.ConditionName | ps3-library/src/library/BookCopy.java:68 | the lowercased condition is "good" exactly for a good copy, else "damaged" |
| Books.BookCopy.constructor | ps3-library/src/library/BookCopy.java:29-34 | a new copy is of the given book and in good condition |
| Books.BookCopy.SetCondition | ps3-library/src/library/BookCopy.java:59-61 | the condition becomes the given one |
| Books.BookCopy.ToString | ps3-library/src/library/BookCopy.java:67-69 | the result is the book's `toString`, then `"\nCondition: "` and the condition's name |
| Books.TwoCopies | ps3-library/src/library/BookCopy.java:29-34 | two copies of one book are different objects of the same book, both in good condition |
| Ledger.BookList.constructor | ps3-library/src/library/BookList.java:13-14 | a new ledger is empty and valid |
| Ledger.BookList.Checkin | ps3-library/src/library/BookList.java:49-53 | the copy leaves the checked-out set and joins the shelf; the ledger stays valid |
| Ledger.BookList.Checkout | ps3-library/src/library/BookList.java:55-59 | the copy leaves the shelf and joins the checked-out set; the ledger stays valid |
| Ledger.BookList.Lose | ps3-library/src/library/BookList.java:69-73 | the copy leaves both sets; the ledger stays valid |
| Ledger.BookList.GetCheckedOut | ps3-library/src/library/BookList.java:61-63 | returns the checked-out set |
| Ledger.BookList.GetAvailable | ps3-library/src/library/BookList.java:65-67 | returns the shelf |
| Ledger.CheckoutCheckin | ps3-library/src/library/BookList.java:49-59 | checking out a copy on the shelf and checking it back in restores the ledger |
| SmallLib.SmallLibrary.constructor | ps3-library/src/library/SmallLibrary.java:39-43 | a new library holds no copies and is valid |
| SmallLib.SmallLibrary.Buy | ps3-library/src/library/SmallLibrary.java:54-59 | a fresh good copy of the book joins the shelf; the book has exactly one more copy; the checked-out set is unchanged |
| SmallLib.SmallLibrary.Checkout | ps3-library/src/library/SmallLibrary.java:62-69 | a copy on the shelf moves to checked out; any other copy fails with "This copy is not available for checkout" and changes nothing |
| SmallLib.SmallLibrary.Checkin | ps3-library/src/library/SmallLibrary.java:72-79 | a checked-out copy moves to the shelf; any other copy fails with "This copy is not available for checkin" and changes nothing |
| SmallLib.SmallLibrary.IsAvailable | ps3-library/src/library/SmallLibrary.java:82-84 | true exactly for copies on the shelf, which are then not checked out |
| SmallLib.SmallLibrary.GetCopies | ps3-library/src/library/SmallLibrary.java:135-141 | the copies in the given set that are of the book |
| SmallLib.SmallLibrary.AvailableCopies | ps3-library/src/library/SmallLibrary.java:94-96 | the copies of the book on the shelf |
| SmallLib.SmallLibrary.AllCopies | ps3-library/src/library/SmallLibrary.java:87-91 | the copies of the book on the shelf or out |
| SmallLib.SmallLibrary.Find | ps3-library/src/library/SmallLibrary.java:99-123 | each held book whose title or one of whose authors equals the query, once, newest first |
| SmallLib.SmallLibrary.Lose | ps3-library/src/library/SmallLibrary.java:126-133 | a held copy leaves the library; any other copy fails with "This copy does not exist in library" and changes nothing |
| SmallLib.CheckoutThenCheckin | ps3-library/src/library/SmallLibrary.java:62-79 | checking out an available copy and checking it back in both pass and restore the library |
| Query.ByYearIsTotalPreorder | ps3-library/src/library/IQueryStrategy.java:49 | descending-year order is antisymmetric and transitive |
| Query.ListByYear | ps3-library/src/library/IQueryStrategy.java:48-51 | the found set listed once each, newest first |
| Query.SimpleFind | ps3-library/src/library/IQueryStrategy.java:33-52 | each book whose title or one of whose authors equals the query, once, newest first |
| Query.AuthorWordsMembers | ps3-library/src/library/IQueryStrategy.java:174-176 | a word is in the author words iff it is a `split` piece of some author |
| Query.KeywordsOfBook | ps3-library/src/library/IQueryStrategy.java:165-180 | a keyword is the title, a title word, an author, an author's word or the year string, and nothing else |
| Query.GetKeywords | ps3-library/src/library/IQueryStrategy.java:165-180 | the loop over the authors computes exactly the book's keywords |
| Query.Dedup | ps3-library/src/library/IQueryStrategy.java:129 | the keyword list without repeats: distinct, same members |
| Query.Unmatched | ps3-library/src/library/IQueryStrategy.java:131-132 | the keywords that are not query words, and only those |
| Query.UnmatchedShorter | ps3-library/src/library/IQueryStrategy.java:130-134 | the unmatched length is at most the keyword length, equal iff no keyword is a query word, and zero iff every keyword is one |
| Query.KeywordListMembers | ps3-library/src/library/IQueryStrategy.java:129 | the keyword list is distinct and holds exactly the keywords |
| Query.MatchScore | ps3-library/src/library/IQueryStrategy.java:116-135 | 4 for the exact title, else 3 for an exact author, else 2 for the exact year, else a fraction between 0 and 1 |
| Query.PartialScoreFull | ps3-library/src/library/IQueryStrategy.java:129-134 | the partial score is 1 iff no keyword is left unmatched |
| Query.PartialScoreZero | ps3-library/src/library/IQueryStrategy.java:129-134 | the partial score is 0 iff no keyword is a query word |
| Query.ScoreCompare | ps3-library/src/library/IQueryStrategy.java:74 | `Double.compare` on exact fractions: its sign says which score is smaller |
| Query.Compare | ps3-library/src/library/IQueryStrategy.java:69-81 | books that are `sameAs` each other go newest first; others by score descending, then by title |
| Query.OrderAntisymmetric | ps3-library/src/library/IQueryStrategy.java:69-81 | the comparator is antisymmetric |
| Query.OneWordBookScore | ps3-library/src/library/IQueryStrategy.java:129-134 | the score of a one-word book is the partial score over its title, author and year |
| Query.OrderNotTransitive | ps3-library/src/library/IQueryStrategy.java:69-81 | the comparator has a cycle under the query "T 1900", so it is not transitive |
| Query.CycleOrder | ps3-library/src/library/IQueryStrategy.java:69-81 | any query splitting into "T" and "1900" makes the comparator non-transitive |
| Query.CycleCompares | ps3-library/src/library/IQueryStrategy.java:69-81 | the three comparisons that close the cycle |
| Query.CycleScores | ps3-library/src/library/IQueryStrategy.java:116-135 | the scores 1/6, 5/6 and 5/7 of the three books of the cycle |
| Indexing.AfterFind | ps3-library/src/library/IQueryStrategy.java:94-102 | `find` changes only the bucket of the query itself, when the query is a key, to the found books |
| Indexing.EmptyIndexSound | ps3-library/src/library/IQueryStrategy.java:85 | the empty index is sound for an empty library |
| Indexing.IndexPreservesSound | ps3-library/src/library/IQueryStrategy.java:142-151 | indexing a book keeps the index sound and adds the book to the tracked books |
| Indexing.IndexIdempotent | ps3-library/src/library/IQueryStrategy.java:142-151 | indexing a book twice is indexing it once |
| Indexing.SoundForFewer | ps3-library/src/library/BigLibrary.java:117-119 | a sound index stays sound when books leave |
| Indexing.FindsMatch | ps3-library/src/library/IQueryStrategy.java:94-100 | a tracked book is gathered for a query iff it matches the query or shares a keyword with one of its words |
| Indexing.FindSetIsMatches | ps3-library/src/library/IQueryStrategy.java:94-102 | with a sound index, `find` returns exactly the matching books among those given |
| Indexing.AfterFindSound | ps3-library/src/library/IQueryStrategy.java:94-102 | the update of the query's bucket keeps the index sound |
| Indexing.FindRepeatable | ps3-library/src/library/IQueryStrategy.java:94-102 | a find does not change what any later find returns |
| Indexing.IndexedQuery.constructor | ps3-library/src/library/IQueryStrategy.java:85-87 | a new strategy has an empty index and no query |
| Indexing.IndexedQuery.Index | ps3-library/src/library/IQueryStrategy.java:142-151 | the book is added to the bucket of each of its keywords; nothing else changes |
| Indexing.IndexedQuery.AddToBuckets | ps3-library/src/library/IQueryStrategy.java:146-150 | the loop adds the book to the bucket of each given word |
| Indexing.IndexedQuery.GatherTokens | ps3-library/src/library/IQueryStrategy.java:96-100 | the loop adds the buckets of every query word that is a key |
| Indexing.IndexedQuery.Find | ps3-library/src/library/IQueryStrategy.java:90-106 | records the query; updates the index as `AfterFind`; returns the found books once each, every neighbouring pair in comparator order |
| BigLib.BigLibrary.LedgersApart | ps3-library/src/library/BigLibrary.java:22-23 | two books never share a ledger |
| BigLib.BigLibrary.constructor | ps3-library/src/library/BigLibrary.java:19-31 | a new library is empty and valid |
| BigLib.BigLibrary.Buy | ps3-library/src/library/BigLibrary.java:43-56 | a fresh good copy joins the book's shelf; the book is tracked; other books are unchanged; the index is unchanged for a tracked book and gains the new book under its keywords otherwise, and stays sound |
| BigLib.BigLibrary.Shelve | ps3-library/src/library/BigLibrary.java:45-53 | a new book gets a ledger and is filed under its keywords, a tracked book leaves the index as it was; the copy goes on the shelf |
| BigLib.BigLibrary.IndexNew | ps3-library/src/library/BigLibrary.java:50 | the new book is filed under each of its keywords and nothing else changes; the index stays sound for the tracked books and that book |
| BigLib.BigLibrary.Checkout | ps3-library/src/library/BigLibrary.java:59-62 | the copy moves to checked out in its book's ledger; an untracked book is a null-reference exception |
| BigLib.BigLibrary.Checkin | ps3-library/src/library/BigLibrary.java:66-69 | the copy moves to the shelf in its book's ledger; an untracked book is a null-reference exception |
| BigLib.BigLibrary.AllCopies | ps3-library/src/library/BigLibrary.java:72-77 | the book's copies on the shelf and out; none for an untracked book |
| BigLib.BigLibrary.AvailableCopies | ps3-library/src/library/BigLibrary.java:80-83 | the book's copies on the shelf; none for an untracked book |
| BigLib.BigLibrary.IsAvailable | ps3-library/src/library/BigLibrary.java:86-90 | true exactly for copies on their book's shelf, which are then not checked out |
| BigLib.BigLibrary.Find | ps3-library/src/library/BigLibrary.java:106-108 | the tracked books that match the query, once each, every neighbouring pair in comparator order; the index stays sound |
| BigLib.BigLibrary.Lose | ps3-library/src/library/BigLibrary.java:111-121 | the copy leaves its ledger; the book leaves the library exactly when that was its last copy |
| BigLib.LoseLastCopyThenFind | ps3-library/src/library/BigLibrary.java:111-121 | after its last copy is lost, no query finds the book |
| JavaText.SplitOneWord | ps3-library/src/library/IQueryStrategy.java:170 | a string without whitespace splits into itself |
| JavaText.PiecesRoundTrip | ps3-library/src/library/IQueryStrategy.java:170 | the pieces between whitespace characters, rejoined by those characters, give back the string |
| JavaText.SplitNoSpace | ps3-library/src/library/IQueryStrategy.java:170 | no piece of a split contains whitespace |
| JavaText.SplitTokenIsFixpoint | ps3-library/src/library/IQueryStrategy.java:96 | each piece of a split splits into itself |
| JavaText.IntToString | ps3-library/src/library/IQueryStrategy.java:125 | decimal digits, with a minus sign exactly for negative numbers |
| JavaText.DecimalRoundTrip | ps3-library/src/library/IQueryStrategy.java:178 | reading back the decimal digits of a year gives the year |
| JavaText.DecimalStringInjective | ps3-library/src/library/IQueryStrategy.java:178 | different years have different decimal strings |
| JavaText.IntCompare | ps2-tweets/src/twitter/SocialNetwork.java:128 | `Integer.compare`: the sign of the comparison |
| JavaText.CompareStrings | ps3-library/src/library/IQueryStrategy.java:78 | `compareTo` as a sign, zero exactly for equal strings |
| JavaText.CompareStringsAntisymmetric | ps2-tweets/src/twitter/SocialNetwork.java:130 | swapping the strings negates the comparison |
| JavaText.CompareStringsTransitive | ps2-tweets/src/twitter/SocialNetwork.java:130 | the string order is transitive |
| JavaText.Lower | ps2-tweets/src/twitter/Extract.java:99-100 | lowercasing keeps the length and lowercases each character |
| JavaText.LowerIsLower | ps2-tweets/src/twitter/Extract.java:74 | a lowercased string is lower case, and a lower-case string lowercases to itself |
| JavaText.LowerIdempotent | ps2-tweets/src/twitter/SocialNetwork.java:55 | lowercasing twice is lowercasing once |
| JavaText.PadLeft | ps3-library/src/library/Book.java:82 | padding to a width keeps the string at the end, after spaces only |
| Sorting.Sort | ps3-library/src/library/IQueryStrategy.java:104 | sorting permutes its input |
| Sorting.SortAdjacentSorted | ps3-library/src/library/IQueryStrategy.java:104 | under an antisymmetric comparator every neighbouring pair of the sorted sequence is in order |
| Sorting.AdjacentSortedIsSorted | ps2-tweets/src/twitter/SocialNetwork.java:112 | under a transitive comparator neighbour order gives full order |
| Sorting.SortDistinct | ps3-library/src/library/IQueryStrategy.java:103-104 | sorting keeps elements distinct |
| Sorting.DistinctCount | ps3-library/src/library/IQueryStrategy.java:103 | a list without repetitions has as many elements as its set |
| Sorting.SortedThreeUnique | ps3-library/src/library/IQueryStrategy.java:104 | three distinct elements strictly ordered by the comparator have one list, each once, with neighbours in order |
| Sorting.SetToSeq | ps3-library/src/library/IQueryStrategy.java:103 | a set listed once each |
| FindExamples.ThisIsHomeScores | ps3-library/src/library/IQueryStrategy.java:116-135 | under the query "This Is Home" the sample books score 4, 10/32 ("Home Is This") and 10/27 ("Home Is") |
| FindExamples.HomeIsScores | ps3-library/src/library/IQueryStrategy.java:116-135 | under the query "Home Is" the exact title scores 4 and both other sample books 6/32 |
| FindExamples.ThisIsHomeCompares | ps3-library/src/library/IQueryStrategy.java:69-81 | under "This Is Home" the comparator puts "This Is Home" before "Home Is" before "Home Is This", pair by pair |
| FindExamples.HomeIsCompares | ps3-library/src/library/IQueryStrategy.java:69-81 | under "Home Is" the comparator puts "Home Is" first, and "Home Is This" before "This Is Home" on the title tie-break |
| FindExamples.ThisIsHomeMatchesAll | ps3-library/src/library/IQueryStrategy.java:94-100 | every sample book shares a keyword with "This Is Home" |
| FindExamples.HomeIsMatchesAll | ps3-library/src/library/IQueryStrategy.java:94-100 | every sample book shares a keyword with "Home Is" |
| FindExamples.TwoThousandMatches | ps3-library/test/library/BigLibraryTest.java:59 | only the 2000 book matches the query "2000" |
| FindExamples.FindTwoThousand | ps3-library/test/library/BigLibraryTest.java:59 | the matches of "2000", each once, are the 2000 book alone |
| FindExamples.FindThisIsHomeOrder | ps3-library/test/library/BigLibraryTest.java:61 | the one list of the matches of "This Is Home", each once with neighbours in order, is book1, book3, book2 |
| FindExamples.FindHomeIsOrder | ps3-library/test/library/BigLibraryTest.java:63 | the one list of the matches of "Home Is", each once with neighbours in order, is book3, book2, book1 |
| FindExamples.FindMatchKeywords | ps3-library/test/library/BigLibraryTest.java:40-65 | on the library of two copies of book2, two of book3 and one of book1, `find` returns [book3] for "2000", [book1, book3, book2] for "This Is Home" and [book3, book2, book1] for "Home Is" |
| Extract.GetTimespan | ps2-tweets/src/twitter/Extract.java:30-48 | the epoch for no tweets; otherwise the earliest and latest timestamps, which bound every tweet |
| Extract.RunLength | ps2-tweets/src/twitter/Extract.java:68 | the longest run of username characters from a position |
| Extract.WordAt | ps2-tweets/src/twitter/Extract.java:74 | the captured word is that run, lowercased |
| Extract.FoundMembers | ps2-tweets/src/twitter/Extract.java:68-76 | a word is found iff some sigil position in the text captures it |
| Extract.FoundWordsLower | ps2-tweets/src/twitter/Extract.java:74 | found words are non-empty and lower case |
| Extract.FindAll | ps2-tweets/src/twitter/Extract.java:71-76 | the matcher loop collects exactly the found words |
| Extract.MentionedMembers | ps2-tweets/src/twitter/Extract.java:65-79 | a user is mentioned iff some tweet's text mentions it |
| Extract.GetMentionedUsers | ps2-tweets/src/twitter/Extract.java:65-79 | the loop computes exactly the mentioned users |
| Extract.HashtagUsersMembers | ps2-tweets/src/twitter/Extract.java:89-109 | a tag is a key iff some tweet uses it, and a user is listed under it iff some tweet by that user, lowercased, uses it |
| Extract.FileOneMoreTag | ps2-tweets/src/twitter/Extract.java:102-105 | filing one more tag adds the author under that tag only |
| Extract.FileNoTags | ps2-tweets/src/twitter/Extract.java:97-106 | filing no tags changes nothing |
| Extract.FileUnder | ps2-tweets/src/twitter/Extract.java:97-106 | the inner loop files the author under each tag of the tweet |
| Extract.GetHashtagUsers | ps2-tweets/src/twitter/Extract.java:89-109 | the loop computes exactly the hashtag map |
| Extract.EmailIsNoMention | ps2-tweets/src/twitter/Extract.java:58-61 | "bitdiddle@mit.edu" mentions nobody |
| Extract.TripleHashIsNoTag | ps2-tweets/src/twitter/Extract.java:92 | "###" holds no hashtag |
| Social.WrittenBy | ps2-tweets/src/twitter/SocialNetwork.java:61 | the tweets whose author is the user, up to case |
| Social.GuessFollowsGraph | ps2-tweets/src/twitter/SocialNetwork.java:49-80 | the loop builds exactly the guessed graph |
| Social.GuessFollows | ps2-tweets/src/twitter/SocialNetwork.java:55-75 | the follows of one author: mentions by the author and users of the author's hashtags, minus the author |
| Social.AddCoTaggers | ps2-tweets/src/twitter/SocialNetwork.java:67-72 | the hashtag loop adds every user of each hashtag the author used |
| Social.GraphKeys | ps2-tweets/src/twitter/SocialNetwork.java:54-55 | the graph's keys are exactly the lowercased authors |
| Social.NoTweetsNoGraph | ps2-tweets/src/twitter/SocialNetwork.java:49-80 | no tweets give an empty graph |
| Social.NoSelfFollow | ps2-tweets/src/twitter/SocialNetwork.java:75 | nobody follows themself |
| Social.MentionImpliesFollow | ps2-tweets/src/twitter/SocialNetwork.java:59-64 | an author follows every other user their tweet mentions |
| Social.SharedHashtagImpliesFollow | ps2-tweets/src/twitter/SocialNetwork.java:66-72 | two different authors who used one hashtag follow each other |
| Social.GraphNamesFromTweets | ps2-tweets/src/twitter/SocialNetwork.java:44-47 | every followed name is an author or a mentioned user |
| Social.CompareInfluenceAntisymmetric | ps2-tweets/src/twitter/SocialNetwork.java:127-134 | the influence comparator is antisymmetric |
| Social.CompareInfluenceTransitive | ps2-tweets/src/twitter/SocialNetwork.java:127-134 | the influence comparator is transitive |
| Social.CountOneMore | ps2-tweets/src/twitter/SocialNetwork.java:105-107 | one more pair adds one follower to its own name only |
| Social.CountFollowed | ps2-tweets/src/twitter/SocialNetwork.java:104-108 | the inner loop counts each followed name of one key |
| Social.CountOne | ps2-tweets/src/twitter/SocialNetwork.java:105-107 | one step adds one follower to the lowercased name, starting at 1 for a new name |
| Social.CountKey | ps2-tweets/src/twitter/SocialNetwork.java:96-108 | one outer step registers the key's name at 0 if new, then counts its followed names |
| Social.CountInfluence | ps2-tweets/src/twitter/SocialNetwork.java:93-109 | the counting loops map every name of the graph to its follower count |
| Social.Entries | ps2-tweets/src/twitter/SocialNetwork.java:112 | each name paired with its count |
| Social.Names | ps2-tweets/src/twitter/SocialNetwork.java:112 | the names of the entries, in order |
| Social.KeyedSortedRanks | ps2-tweets/src/twitter/SocialNetwork.java:112 | sorted entries give distinct names, ordered by count descending, then by name |
| Social.RankedByCounts | ps2-tweets/src/twitter/SocialNetwork.java:112 | sorting the entries ranks exactly the counted names |
| Social.RankedByInfluence | ps2-tweets/src/twitter/SocialNetwork.java:112 | the ranking covers every name of the graph once, by follower count descending, ties by name |
| Social.Influencers | ps2-tweets/src/twitter/SocialNetwork.java:91-114 | every name of the graph, lowercased, once each, by follower count descending, ties by name ascending; an empty graph gives an empty list |

## Left out

- Java's `HashSet` and `HashMap` iteration order is not modelled. A loop over a set takes its elements in an unspecified order, so results are stated as sets. `find` results are stated up to what the sort promises.
- `Book.hashCode` is left out. Value equality of the datatype stands in for it.
- `getAuthors` and `getIndex` return copies of, or a reference to, the fields. The model reads the fields directly.
- The `Library` interface is not modelled. The two classes are modelled directly.
- `Query.MatchScore`, `Query.TotalLength`, `JavaText.CompareStrings`: a string is a sequence of code points, not of UTF-16 code units. So the keyword lengths summed by the score (ps3-library/src/library/IQueryStrategy.java:130,133) and the order of `compareTo` (ps3-library/src/library/IQueryStrategy.java:78, ps2-tweets/src/twitter/SocialNetwork.java:130) differ from Java's for characters outside the Basic Multilingual Plane. For example, U+1F600 sorts before U+FFFD in Java, because its first code unit is a surrogate, but after it here.
- Unicode case mapping is left out. `Lower` folds ASCII letters only, where `toLowerCase` also folds other scripts.
- A `null` argument is not modelled. Every argument exists.
- `Instant` is an integer timestamp, and `Tweet` ids play no part.
- The `double` arithmetic of `matchScore` is replaced by exact fractions. Rounding can make two scores the model calls different compare equal in Java.
- `Sorting.Sort`: TimSort is replaced by an insertion sort. Both give a permutation in which every neighbouring pair is in order when the comparator is antisymmetric. Under the non-transitive comparator of the indexed query the two sorts can pick different orders, or TimSort can throw, and this is not modelled.
- `Indexing.IndexedQuery.Find`: states neighbour order only, not full sortedness, because the comparator is not transitive.
- `JavaText.CompareStrings` returns the sign of `String.compareTo`, not the difference of the first differing characters. Every caller uses only the sign.
- `Social.WrittenBy`: Filter.java is not part of this model. This is a reference definition of the behaviour `guessFollowsGraph` relies on: the author's tweets, up to case.
- `Extract.FindAll`: the hashtag pattern may swallow one terminator character after a tag. The scanner skips it, and the captured words are unchanged because a terminator is never a `#`.
- `Ledger.BookList.Checkin` and `Ledger.BookList.Checkout` require that the copy be of the same book as the ledger's other copies. In Java this is the rep-invariant assertion, which fails otherwise.
- The other `find` tests of BigLibraryTest.java (the queries "Test" and "Test Query" on the sample library, "Home Island" on a second library, and the example query on an empty library) are not restated. `FindExamples` restates the three queries whose answers are ordered.
- The sub-linear running time that motivates `BigLibrary` is not modelled.
- `ps1-warmup` (Quadratic.java) is not part of this model.

## Findings

| source | as written | input that shows it | evidently intended | confidence | as-written member | corrected member |
|---|---|---|---|---|---|---|
| ps3-library/src/library/Book.java:52 | `title.matches(".*[^ ]+.*")`: Java's `.` does not match line terminators | the title "\n \n" has non-space characters but fails the assertion | accept every title with at least one non-space character, as the rep invariant on line 23 says | medium, not executed | Books.NewBookAsWritten | Books.NewBook |
