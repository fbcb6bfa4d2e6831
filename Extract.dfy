/**
 * Extract: the time span of a list of tweets, the users @-mentioned in them,
 * and the users of each #hashtag. The two regular expressions of the
 * original become one scanner over the username character class, applied
 * the way `Matcher.find` walks a text: try each position from the left, and
 * after a match carry on from its end.
 */
module Extract {
  import opened JavaText

  /** A tweet; the instant of posting is a count of time units since the epoch. */
  datatype Tweet = Tweet(id: int, author: string, text: string, timestamp: int)

  /** A closed interval of instants. */
  datatype Timespan = Timespan(start: int, end: int)

  /** `Instant.EPOCH`. */
  const Epoch: int := 0

  /**
   * `getTimespan(tweets)`: the shortest interval holding every timestamp,
   * that is from the earliest to the latest; (EPOCH, EPOCH) for no tweets.
   */
  method GetTimespan(tweets: seq<Tweet>) returns (span: Timespan)
    ensures tweets == [] ==> span == Timespan(Epoch, Epoch)
    ensures span.start <= span.end
    ensures forall t | t in tweets :: span.start <= t.timestamp <= span.end
    ensures tweets != [] ==> exists t | t in tweets :: t.timestamp == span.start
    ensures tweets != [] ==> exists t | t in tweets :: t.timestamp == span.end
  {
    if tweets == [] {
      return Timespan(Epoch, Epoch);
    }
    var start := tweets[0].timestamp;
    var end := start;
    ghost var first, last := 0, 0;
    var i := 1;
    while i < |tweets|
      invariant 1 <= i <= |tweets|
      invariant 0 <= first < i && tweets[first].timestamp == start
      invariant 0 <= last < i && tweets[last].timestamp == end
      invariant forall j | 0 <= j < i :: start <= tweets[j].timestamp <= end
    {
      var time := tweets[i].timestamp;
      if time < start {
        start := time;
        first := i;
      } else if time > end {
        end := time;
        last := i;
      }
      i := i + 1;
    }
    span := Timespan(start, end);
    assert tweets[first] in tweets && tweets[last] in tweets;
  }

  /** `[a-zA-z0-9-_]`: the range `A-z` also takes in `[ \ ] ^ _` and the backquote. */
  predicate UsernameChar(c: char) {
    'A' <= c <= 'z' || '0' <= c <= '9' || c == '-' || c == '_'
  }

  /** The length of the longest run of username characters starting at `from`. */
  function RunLength(text: string, from: nat): (n: nat)
    requires from <= |text|
    ensures from + n <= |text|
    ensures forall k | from <= k < from + n :: UsernameChar(text[k])
    ensures from + n == |text| || !UsernameChar(text[from + n])
    decreases |text| - from
  {
    if from < |text| && UsernameChar(text[from]) then 1 + RunLength(text, from + 1) else 0
  }

  /**
   * A match starts at `s`: the sigil, not preceded by a username character
   * when `boundary` asks for that (the negative lookbehind of the mention
   * pattern), then at least one username character.
   */
  predicate SigilAt(text: string, s: nat, sigil: char, boundary: bool) {
    s < |text| && text[s] == sigil &&
    (boundary ==> s == 0 || !UsernameChar(text[s - 1])) &&
    RunLength(text, s + 1) > 0
  }

  /** The captured group of the match at `s`, lowercased. */
  function WordAt(text: string, s: nat): (w: string)
    requires s < |text|
    ensures |w| == RunLength(text, s + 1) && IsLower(w)
  {
    var w := Lower(text[s + 1..s + 1 + RunLength(text, s + 1)]);
    LowerIsLower(text[s + 1..s + 1 + RunLength(text, s + 1)]);
    w
  }

  /** The words of the matches starting before `pos`. */
  function FoundBefore(text: string, sigil: char, boundary: bool, pos: nat): set<string>
    requires pos <= |text|
  {
    if pos == 0 then {}
    else
      var here := if SigilAt(text, pos - 1, sigil, boundary) then {WordAt(text, pos - 1)} else {};
      FoundBefore(text, sigil, boundary, pos - 1) + here
  }

  /** The words of all matches in `text`. */
  function Found(text: string, sigil: char, boundary: bool): set<string> {
    FoundBefore(text, sigil, boundary, |text|)
  }

  /** The users @-mentioned in one text. */
  function MentionSet(text: string): set<string> {
    Found(text, '@', true)
  }

  /** The hashtags of one text. */
  function TagSet(text: string): set<string> {
    Found(text, '#', false)
  }

  /** `[\.\,\!\)$ ]`: what the hashtag pattern may swallow after the tag. */
  const TagTerminators: set<char> := {'.', ',', '!', ')', '$', ' '}

  lemma {:induction false} FoundBeforeMembers(text: string, sigil: char, boundary: bool, pos: nat, w: string)
    requires pos <= |text|
    ensures w in FoundBefore(text, sigil, boundary, pos) <==>
      exists s | 0 <= s < pos :: SigilAt(text, s, sigil, boundary) && WordAt(text, s) == w
  {
    if pos > 0 {
      FoundBeforeMembers(text, sigil, boundary, pos - 1, w);
    }
  }

  /** A word is found exactly when some match in the text captures it. */
  lemma FoundMembers(text: string, sigil: char, boundary: bool, w: string)
    ensures w in Found(text, sigil, boundary) <==>
      exists s | 0 <= s < |text| :: SigilAt(text, s, sigil, boundary) && WordAt(text, s) == w
  {
    FoundBeforeMembers(text, sigil, boundary, |text|, w);
  }

  /** Every word found is non-empty and lowercase. */
  lemma FoundWordsLower(text: string, sigil: char, boundary: bool, w: string)
    requires w in Found(text, sigil, boundary)
    ensures w != [] && IsLower(w)
  {
    FoundMembers(text, sigil, boundary, w);
  }

  /** No match starts in a stretch without the sigil, so scanning past it finds nothing. */
  lemma {:induction false} SkipNoSigil(text: string, sigil: char, boundary: bool, lo: nat, hi: nat)
    requires lo <= hi <= |text|
    requires forall k | lo <= k < hi :: text[k] != sigil
    ensures FoundBefore(text, sigil, boundary, hi) == FoundBefore(text, sigil, boundary, lo)
    decreases hi
  {
    if lo < hi {
      SkipNoSigil(text, sigil, boundary, lo, hi - 1);
    }
  }

  /**
   * The `while (m.find())` loop: scan from the left; after a match resume at
   * its end, which is past the run and, when `terminators` holds the next
   * character, past that character too.
   */
  method FindAll(text: string, sigil: char, boundary: bool, terminators: set<char>) returns (found: set<string>)
    requires !UsernameChar(sigil) && sigil !in terminators
    ensures found == Found(text, sigil, boundary)
  {
    found := {};
    var pos := 0;
    while pos < |text|
      invariant pos <= |text|
      invariant found == FoundBefore(text, sigil, boundary, pos)
    {
      if SigilAt(text, pos, sigil, boundary) {
        var n := RunLength(text, pos + 1);
        found := found + {WordAt(text, pos)};
        var next := pos + 1 + n;
        if next < |text| && text[next] in terminators {
          next := next + 1;
        }
        SkipNoSigil(text, sigil, boundary, pos + 1, next);
        pos := next;
      } else {
        pos := pos + 1;
      }
    }
  }

  /** The users mentioned in the first `n` tweets. */
  function MentionedIn(tweets: seq<Tweet>, n: nat): set<string>
    requires n <= |tweets|
  {
    if n == 0 then {} else MentionedIn(tweets, n - 1) + MentionSet(tweets[n - 1].text)
  }

  /** The users mentioned in any of the tweets. */
  function Mentioned(tweets: seq<Tweet>): set<string> {
    MentionedIn(tweets, |tweets|)
  }

  lemma {:induction false} MentionedInMembers(tweets: seq<Tweet>, n: nat, u: string)
    requires n <= |tweets|
    ensures u in MentionedIn(tweets, n) <==> exists i | 0 <= i < n :: u in MentionSet(tweets[i].text)
  {
    if n > 0 {
      MentionedInMembers(tweets, n - 1, u);
    }
  }

  /** A user is mentioned in the list exactly when some tweet's text mentions it. */
  lemma MentionedMembers(tweets: seq<Tweet>, u: string)
    ensures u in Mentioned(tweets) <==> exists i | 0 <= i < |tweets| :: u in MentionSet(tweets[i].text)
  {
    MentionedInMembers(tweets, |tweets|, u);
  }

  /** `getMentionedUsers(tweets)`: the lowercased mentions of every tweet, each once. */
  method GetMentionedUsers(tweets: seq<Tweet>) returns (mentions: set<string>)
    ensures mentions == Mentioned(tweets)
  {
    mentions := {};
    var i := 0;
    while i < |tweets|
      invariant i <= |tweets|
      invariant mentions == MentionedIn(tweets, i)
    {
      var found := FindAll(tweets[i].text, '@', true, {});
      mentions := mentions + found;
      i := i + 1;
    }
  }

  /** `hashtags` after filing each tag of `tags` under `author`. */
  function FileTags(hashtags: map<string, set<string>>, tags: set<string>, author: string): map<string, set<string>> {
    map h | h in hashtags.Keys + tags ::
      (if h in hashtags then hashtags[h] else {}) + (if h in tags then {author} else {})
  }

  /** The hashtag users of the first `n` tweets: each tag with the lowercased authors who used it. */
  function HashtagUsersIn(tweets: seq<Tweet>, n: nat): map<string, set<string>>
    requires n <= |tweets|
  {
    if n == 0 then map[]
    else FileTags(HashtagUsersIn(tweets, n - 1), TagSet(tweets[n - 1].text), Lower(tweets[n - 1].author))
  }

  /** The hashtag users of the whole list. */
  function HashtagUsers(tweets: seq<Tweet>): map<string, set<string>> {
    HashtagUsersIn(tweets, |tweets|)
  }

  lemma {:induction false} HashtagUsersInMembers(tweets: seq<Tweet>, n: nat, h: string, a: string)
    requires n <= |tweets|
    ensures h in HashtagUsersIn(tweets, n) <==> exists i | 0 <= i < n :: h in TagSet(tweets[i].text)
    ensures h in HashtagUsersIn(tweets, n) && a in HashtagUsersIn(tweets, n)[h] <==>
      exists i | 0 <= i < n :: h in TagSet(tweets[i].text) && a == Lower(tweets[i].author)
  {
    if n > 0 {
      HashtagUsersInMembers(tweets, n - 1, h, a);
    }
  }

  /**
   * A tag is a key exactly when some tweet uses it, and its users are
   * exactly the lowercased authors of the tweets that use it.
   */
  lemma HashtagUsersMembers(tweets: seq<Tweet>, h: string, a: string)
    ensures h in HashtagUsers(tweets) <==> exists i | 0 <= i < |tweets| :: h in TagSet(tweets[i].text)
    ensures h in HashtagUsers(tweets) && a in HashtagUsers(tweets)[h] <==>
      exists i | 0 <= i < |tweets| :: h in TagSet(tweets[i].text) && a == Lower(tweets[i].author)
  {
    HashtagUsersInMembers(tweets, |tweets|, h, a);
  }

  /** One step of the inner loop of `getHashtagUsers`: `author` joins the users of `tag`. */
  lemma FileOneMoreTag(hashtags: map<string, set<string>>, done: set<string>, tag: string, author: string)
    ensures var filed := FileTags(hashtags, done, author);
      FileTags(hashtags, done + {tag}, author) ==
      filed[tag := (if tag in filed then filed[tag] else {}) + {author}]
  {
    var filed := FileTags(hashtags, done, author);
    var more := FileTags(hashtags, done + {tag}, author);
    var expected := filed[tag := (if tag in filed then filed[tag] else {}) + {author}];
    assert more.Keys == expected.Keys;
    forall h | h in more
      ensures more[h] == expected[h]
    {
    }
  }

  /** Filing no tag changes nothing. */
  lemma FileNoTags(hashtags: map<string, set<string>>, author: string)
    ensures FileTags(hashtags, {}, author) == hashtags
  {
    var filed := FileTags(hashtags, {}, author);
    assert filed.Keys == hashtags.Keys;
    forall h | h in filed
      ensures filed[h] == hashtags[h]
    {
    }
  }

  /** The matches of one tweet: `author` joins the users of each of its tags, a new tag getting a new set. */
  method FileUnder(hashtags: map<string, set<string>>, tags: set<string>, author: string)
    returns (filed: map<string, set<string>>)
    ensures filed == FileTags(hashtags, tags, author)
  {
    filed := hashtags;
    ghost var done: set<string> := {};
    FileNoTags(hashtags, author);
    var rest := tags;
    while rest != {}
      invariant rest <= tags && done == tags - rest
      invariant filed == FileTags(hashtags, done, author)
    {
      var hashtag :| hashtag in rest;
      if hashtag !in filed {
        filed := filed[hashtag := {}];
      }
      filed := filed[hashtag := filed[hashtag] + {author}];
      FileOneMoreTag(hashtags, done, hashtag, author);
      done := done + {hashtag};
      rest := rest - {hashtag};
    }
  }

  /**
   * `getHashtagUsers(tweets)`: every tag used, lowercased, with the set of
   * lowercased authors who used it.
   */
  method GetHashtagUsers(tweets: seq<Tweet>) returns (hashtags: map<string, set<string>>)
    ensures hashtags == HashtagUsers(tweets)
  {
    hashtags := map[];
    var i := 0;
    while i < |tweets|
      invariant i <= |tweets|
      invariant hashtags == HashtagUsersIn(tweets, i)
    {
      var tags := FindAll(tweets[i].text, '#', false, TagTerminators);
      hashtags := FileUnder(hashtags, tags, Lower(tweets[i].author));
      i := i + 1;
    }
  }

  /** An address such as `bitdiddle@mit.edu` mentions nobody: a username character precedes the `@`. */
  lemma EmailIsNoMention()
    ensures MentionSet("bitdiddle@mit.edu") == {}
  {
    var text := "bitdiddle@mit.edu";
    forall w ensures w !in MentionSet(text) {
      FoundMembers(text, '@', true, w);
      forall s | 0 <= s < |text| ensures !SigilAt(text, s, '@', true) {
        if s != 9 {
          assert text[s] != '@';
        }
      }
    }
  }

  /** `###` has no tag: no `#` is followed by a username character. */
  lemma TripleHashIsNoTag()
    ensures TagSet("###") == {}
  {
    var text := "###";
    forall w ensures w !in TagSet(text) {
      FoundMembers(text, '#', false, w);
      forall s | 0 <= s < |text| ensures !SigilAt(text, s, '#', false) {
        assert s + 1 == |text| || text[s + 1] == '#';
      }
    }
  }
}
