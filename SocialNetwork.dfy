/**
 * SocialNetwork: a follows graph guessed from tweets, and the users of a
 * follows graph ranked by how many follow them. A graph maps a username to
 * the set of usernames it follows; usernames are compared lowercased.
 */
module Social {
  import opened JavaText
  import opened Sorting
  import opened Extract

  /**
   * `Filter.writtenBy(tweets, username)`: the tweets whose author is the
   * username up to case, in their original order. Filter.java is not part of
   * this model; this is a reference definition of its documented contract.
   */
  function WrittenBy(tweets: seq<Tweet>, username: string): (r: seq<Tweet>)
    ensures |r| <= |tweets|
    ensures forall t :: t in r <==> t in tweets && Lower(t.author) == Lower(username)
  {
    if tweets == [] then []
    else
      var here := if Lower(tweets[0].author) == Lower(username) then [tweets[0]] else [];
      here + WrittenBy(tweets[1..], username)
  }

  /** The lowercased authors of the tweets. */
  function Authors(tweets: seq<Tweet>): set<string> {
    set i | 0 <= i < |tweets| :: Lower(tweets[i].author)
  }

  /** Each name lowercased. */
  function LowerAll(names: set<string>): set<string> {
    set m | m in names :: Lower(m)
  }

  /** The users of those tags among `tags` that `username` also used. */
  function CoTaggers(hashtags: map<string, set<string>>, tags: set<string>, username: string): set<string> {
    set h, a | h in tags && h in hashtags && username in hashtags[h] && a in hashtags[h] :: a
  }

  /**
   * Whom `username` is guessed to follow: everyone the user's own tweets
   * mention, and everyone who used a hashtag the user also used; never the
   * user.
   */
  function Follows(tweets: seq<Tweet>, username: string): set<string> {
    var hashtags := HashtagUsers(tweets);
    (LowerAll(Mentioned(WrittenBy(tweets, username))) + CoTaggers(hashtags, hashtags.Keys, username)) - {username}
  }

  /** The guessed graph: one key per lowercased author. */
  function FollowsGraph(tweets: seq<Tweet>): map<string, set<string>> {
    map u | u in Authors(tweets) :: Follows(tweets, u)
  }

  /** `guessFollowsGraph(tweets)`: for each tweet's author, the follows guessed from the evidence. */
  method GuessFollowsGraph(tweets: seq<Tweet>) returns (network: map<string, set<string>>)
    ensures network == FollowsGraph(tweets)
  {
    network := map[];
    var hashtags := GetHashtagUsers(tweets);
    var i := 0;
    while i < |tweets|
      invariant i <= |tweets|
      invariant network.Keys == Authors(tweets[..i])
      invariant forall u | u in network :: network[u] == Follows(tweets, u)
    {
      var username := Lower(tweets[i].author);
      var follows := GuessFollows(tweets, hashtags, username);
      network := network[username := follows];
      AuthorsOneMore(tweets, i);
      i := i + 1;
    }
    assert tweets[..i] == tweets;
    GraphFromParts(tweets, network);
  }

  /** A map with the authors as keys and each author's followed set as value is the graph. */
  lemma GraphFromParts(tweets: seq<Tweet>, network: map<string, set<string>>)
    requires network.Keys == Authors(tweets)
    requires forall u | u in network :: network[u] == Follows(tweets, u)
    ensures network == FollowsGraph(tweets)
  {
    var expected := FollowsGraph(tweets);
    assert network.Keys == expected.Keys;
    forall u | u in network
      ensures network[u] == expected[u]
    {
    }
  }

  lemma AuthorsOneMore(tweets: seq<Tweet>, i: nat)
    requires i < |tweets|
    ensures Authors(tweets[..i + 1]) == Authors(tweets[..i]) + {Lower(tweets[i].author)}
  {
    var before, after := tweets[..i], tweets[..i + 1];
    assert after == before + [tweets[i]];
    forall u | u in Authors(after) ensures u in Authors(before) + {Lower(tweets[i].author)} {
      var j :| 0 <= j < |after| && Lower(after[j].author) == u;
      if j < i {
        assert before[j] == after[j];
      }
    }
    forall u | u in Authors(before) ensures u in Authors(after) {
      var j :| 0 <= j < |before| && Lower(before[j].author) == u;
      assert after[j] == before[j];
    }
    assert Lower(after[i].author) in Authors(after);
  }

  /** The body of the tweet loop of `guessFollowsGraph`: the follows of one author. */
  method GuessFollows(tweets: seq<Tweet>, hashtags: map<string, set<string>>, username: string)
    returns (follows: set<string>)
    requires hashtags == HashtagUsers(tweets)
    ensures follows == Follows(tweets, username)
  {
    follows := {};
    var uncleanMentions := GetMentionedUsers(WrittenBy(tweets, username));
    var rest := uncleanMentions;
    while rest != {}
      invariant rest <= uncleanMentions
      invariant follows == LowerAll(uncleanMentions - rest)
    {
      var mention :| mention in rest;
      follows := follows + {Lower(mention)};
      rest := rest - {mention};
    }
    follows := AddCoTaggers(follows, hashtags, username);
    follows := follows - {username};
  }

  /** The hashtag loop of `guessFollowsGraph`: the users of every tag `username` used join `follows`. */
  method AddCoTaggers(follows: set<string>, hashtags: map<string, set<string>>, username: string)
    returns (more: set<string>)
    ensures more == follows + CoTaggers(hashtags, hashtags.Keys, username)
  {
    more := follows;
    var rest := hashtags.Keys;
    while rest != {}
      invariant rest <= hashtags.Keys
      invariant more == follows + CoTaggers(hashtags, hashtags.Keys - rest, username)
    {
      var hashtag :| hashtag in rest;
      var hashtagUsers := hashtags[hashtag];
      if username in hashtagUsers {
        more := more + hashtagUsers;
      }
      CoTaggersOneMore(hashtags, hashtags.Keys - rest, hashtag, username);
      rest := rest - {hashtag};
    }
  }

  lemma CoTaggersOneMore(hashtags: map<string, set<string>>, tags: set<string>, h: string, username: string)
    requires h in hashtags
    ensures CoTaggers(hashtags, tags + {h}, username) ==
      CoTaggers(hashtags, tags, username) + (if username in hashtags[h] then hashtags[h] else {})
  {
  }

  /** The keys of the guessed graph are exactly the lowercased authors. */
  lemma GraphKeys(tweets: seq<Tweet>, u: string)
    ensures u in FollowsGraph(tweets) <==> exists i | 0 <= i < |tweets| :: Lower(tweets[i].author) == u
  {
  }

  /** No tweets, no graph. */
  lemma NoTweetsNoGraph()
    ensures FollowsGraph([]) == map[]
  {
    assert Authors([]) == {};
  }

  /** Nobody follows themself. */
  lemma NoSelfFollow(tweets: seq<Tweet>, u: string)
    requires u in FollowsGraph(tweets)
    ensures u !in FollowsGraph(tweets)[u]
  {
  }

  /** An author follows everyone their tweets @-mention, other than themself. */
  lemma MentionImpliesFollow(tweets: seq<Tweet>, i: nat, m: string)
    requires i < |tweets| && m in MentionSet(tweets[i].text)
    requires m != Lower(tweets[i].author)
    ensures Lower(tweets[i].author) in FollowsGraph(tweets)
    ensures m in FollowsGraph(tweets)[Lower(tweets[i].author)]
  {
    var u := Lower(tweets[i].author);
    var mine := WrittenBy(tweets, u);
    LowerIdempotent(tweets[i].author);
    assert tweets[i] in mine;
    var k :| 0 <= k < |mine| && mine[k] == tweets[i];
    MentionedMembers(mine, m);
    FoundWordsLower(tweets[i].text, '@', true, m);
    LowerIsLower(m);
    assert m in LowerAll(Mentioned(mine));
    assert u in Authors(tweets);
  }

  /** Two authors who used the same hashtag follow each other. */
  lemma SharedHashtagImpliesFollow(tweets: seq<Tweet>, i: nat, j: nat, h: string)
    requires i < |tweets| && j < |tweets|
    requires h in TagSet(tweets[i].text) && h in TagSet(tweets[j].text)
    requires Lower(tweets[i].author) != Lower(tweets[j].author)
    ensures Lower(tweets[i].author) in FollowsGraph(tweets)
    ensures Lower(tweets[j].author) in FollowsGraph(tweets)[Lower(tweets[i].author)]
  {
    var u, v := Lower(tweets[i].author), Lower(tweets[j].author);
    var hashtags := HashtagUsers(tweets);
    HashtagUsersMembers(tweets, h, u);
    HashtagUsersMembers(tweets, h, v);
    assert v in CoTaggers(hashtags, hashtags.Keys, u);
    assert u in Authors(tweets);
  }

  /** Every name in the graph is an author or a mention of the tweets. */
  lemma GraphNamesFromTweets(tweets: seq<Tweet>, u: string, v: string)
    requires u in FollowsGraph(tweets) && v in FollowsGraph(tweets)[u]
    ensures v in Authors(tweets) || v in Mentioned(tweets)
  {
    var hashtags := HashtagUsers(tweets);
    var mine := WrittenBy(tweets, u);
    if v in LowerAll(Mentioned(mine)) {
      var m :| m in Mentioned(mine) && Lower(m) == v;
      MentionedMembers(mine, m);
      var k :| 0 <= k < |mine| && m in MentionSet(mine[k].text);
      assert mine[k] in tweets;
      var i :| 0 <= i < |tweets| && tweets[i] == mine[k];
      MentionedMembers(tweets, m);
      FoundWordsLower(mine[k].text, '@', true, m);
      LowerIsLower(m);
    } else {
      assert v in CoTaggers(hashtags, hashtags.Keys, u);
      var h :| h in hashtags && u in hashtags[h] && v in hashtags[h];
      HashtagUsersMembers(tweets, h, v);
    }
  }

  // ----- influencers -----

  /** Every (key, followed name) pair of the graph. */
  function FollowPairs(graph: map<string, set<string>>): set<(string, string)> {
    set k, f | k in graph && f in graph[k] :: (k, f)
  }

  /** The lowercased names of a graph, keys and followed names alike. */
  function Users(graph: map<string, set<string>>): set<string> {
    KeyNames(graph.Keys) + FollowedNames(FollowPairs(graph))
  }

  /** The lowercased keys among `keys`. */
  function KeyNames(keys: set<string>): set<string> {
    set k | k in keys :: Lower(k)
  }

  /** The lowercased followed names of `pairs`. */
  function FollowedNames(pairs: set<(string, string)>): set<string> {
    set p | p in pairs :: Lower(p.1)
  }

  /** How many of `pairs` follow `u`, up to case. */
  function CountIn(pairs: set<(string, string)>, u: string): nat {
    |set p | p in pairs && Lower(p.1) == u|
  }

  /** The follower count of `u`: the (key, name) pairs whose name lowercases to `u`. */
  function Followers(graph: map<string, set<string>>, u: string): nat {
    CountIn(FollowPairs(graph), u)
  }

  /** `InfluenceSort.compare`: more followers first, then names in `compareTo` order. */
  function CompareInfluence(o1: (string, int), o2: (string, int)): int {
    var comp := IntCompare(o2.1, o1.1);
    if comp == 0 then CompareStrings(o1.0, o2.0) else comp
  }

  /** The comparator is antisymmetric. */
  lemma CompareInfluenceAntisymmetric()
    ensures Antisymmetric(CompareInfluence)
  {
    forall a: (string, int), b: (string, int)
      ensures CompareInfluence(a, b) < 0 <==> CompareInfluence(b, a) > 0
    {
      CompareStringsAntisymmetric(a.0, b.0);
    }
  }

  /** The comparator is transitive, so with antisymmetry it is a total order on names. */
  lemma CompareInfluenceTransitive()
    ensures TransitiveNotAfter(CompareInfluence)
  {
    forall a: (string, int), b: (string, int), c: (string, int)
      | CompareInfluence(a, b) <= 0 && CompareInfluence(b, c) <= 0
      ensures CompareInfluence(a, c) <= 0
    {
      if a.1 == c.1 {
        assert a.1 == b.1;
        if a.0 != b.0 && b.0 != c.0 {
          CompareStringsTransitive(a.0, b.0, c.0);
        }
      }
    }
  }

  /** One more pair counts for its own name only. */
  lemma CountOneMore(pairs: set<(string, string)>, p: (string, string), u: string)
    requires p !in pairs
    ensures CountIn(pairs + {p}, u) == CountIn(pairs, u) + (if Lower(p.1) == u then 1 else 0)
  {
    var before := set q | q in pairs && Lower(q.1) == u;
    var after := set q | q in pairs + {p} && Lower(q.1) == u;
    if Lower(p.1) == u {
      assert after == before + {p};
    } else {
      assert after == before;
    }
  }

  /** A name no pair follows has count 0. */
  lemma CountNone(pairs: set<(string, string)>, u: string)
    requires forall p | p in pairs :: Lower(p.1) != u
    ensures CountIn(pairs, u) == 0
  {
    assert (set p | p in pairs && Lower(p.1) == u) == {};
  }

  /** The pairs of the keys `keys`. */
  function PairsOf(graph: map<string, set<string>>, keys: set<string>): set<(string, string)> {
    set k, f | k in keys && k in graph && f in graph[k] :: (k, f)
  }

  /**
   * The counting loop of `influencers`, over the followed names of one key:
   * each name, lowercased, gains one follower.
   */
  method CountFollowed(influence: map<string, int>, ghost done: set<(string, string)>, key: string, followed: set<string>)
    returns (counts: map<string, int>, ghost pairs: set<(string, string)>)
    requires forall f | f in followed :: (key, f) !in done
    requires forall p | p in done :: Lower(p.1) in influence
    requires forall u | u in influence :: influence[u] == CountIn(done, u)
    ensures pairs == done + Tagged(key, followed)
    ensures counts.Keys == influence.Keys + LowerAll(followed)
    ensures forall u | u in counts :: counts[u] == CountIn(pairs, u)
  {
    counts := influence;
    pairs := done;
    ghost var taken: set<string> := {};
    var rest := followed;
    while rest != {}
      invariant taken <= followed && rest == followed - taken
      invariant pairs == done + Tagged(key, taken)
      invariant counts.Keys == influence.Keys + LowerAll(taken)
      invariant forall p | p in pairs :: Lower(p.1) in counts
      invariant forall u | u in counts :: counts[u] == CountIn(pairs, u)
    {
      var dirtyUserName :| dirtyUserName in rest;
      counts := CountOne(counts, pairs, key, dirtyUserName);
      pairs := pairs + {(key, dirtyUserName)};
      OneMoreName(key, taken, dirtyUserName);
      taken := taken + {dirtyUserName};
      rest := rest - {dirtyUserName};
    }
  }

  /** One step of the inner loop: the lowercased `name` gains one follower. */
  method CountOne(influence: map<string, int>, ghost pairs: set<(string, string)>, key: string, name: string)
    returns (counts: map<string, int>)
    requires (key, name) !in pairs
    requires forall p | p in pairs :: Lower(p.1) in influence
    requires forall u | u in influence :: influence[u] == CountIn(pairs, u)
    ensures counts.Keys == influence.Keys + {Lower(name)}
    ensures forall u | u in counts :: counts[u] == CountIn(pairs + {(key, name)}, u)
  {
    var followedUser := Lower(name);
    if followedUser !in influence {
      CountNone(pairs, followedUser);
    }
    var nextInfluence := if followedUser in influence then influence[followedUser] + 1 else 1;
    counts := influence[followedUser := nextInfluence];
    forall u | u in counts ensures counts[u] == CountIn(pairs + {(key, name)}, u) {
      CountOneMore(pairs, (key, name), u);
    }
  }

  /** The pairs of `key` with each of `names`. */
  function Tagged(key: string, names: set<string>): set<(string, string)> {
    set f | f in names :: (key, f)
  }

  /** One more name adds one pair and one lowercased name. */
  lemma OneMoreName(key: string, names: set<string>, n: string)
    ensures Tagged(key, names + {n}) == Tagged(key, names) + {(key, n)}
    ensures LowerAll(names + {n}) == LowerAll(names) + {Lower(n)}
  {
  }


  /**
   * The counting loop of `influencers`: every name of the graph, lowercased,
   * mapped to its number of followers.
   */
  method CountInfluence(graph: map<string, set<string>>) returns (influence: map<string, int>)
    ensures influence.Keys == Users(graph)
    ensures forall u | u in influence :: influence[u] == Followers(graph, u)
  {
    influence := map[];
    ghost var seen: set<string> := {};
    var keys := graph.Keys;
    while keys != {}
      invariant seen <= graph.Keys && keys == graph.Keys - seen
      invariant influence.Keys == KeyNames(seen) + FollowedNames(PairsOf(graph, seen))
      invariant forall u | u in influence :: influence[u] == CountIn(PairsOf(graph, seen), u)
    {
      var key :| key in keys;
      influence := CountKey(graph, influence, seen, key);
      seen := seen + {key};
      keys := keys - {key};
    }
    assert seen == graph.Keys;
    assert PairsOf(graph, seen) == FollowPairs(graph);
  }

  /** One pass of the counting loop: `key` itself, then each name it follows. */
  method CountKey(graph: map<string, set<string>>, influence: map<string, int>, ghost seen: set<string>, key: string)
    returns (counts: map<string, int>)
    requires key in graph && key !in seen
    requires influence.Keys == KeyNames(seen) + FollowedNames(PairsOf(graph, seen))
    requires forall u | u in influence :: influence[u] == CountIn(PairsOf(graph, seen), u)
    ensures counts.Keys == KeyNames(seen + {key}) + FollowedNames(PairsOf(graph, seen + {key}))
    ensures forall u | u in counts :: counts[u] == CountIn(PairsOf(graph, seen + {key}), u)
  {
    ghost var done := PairsOf(graph, seen);
    var user := Lower(key);
    counts := influence;
    if user !in counts {
      CountNone(done, user);
      counts := counts[user := 0];
    }
    ghost var pairs;
    counts, pairs := CountFollowed(counts, done, key, graph[key]);
    OneMoreKey(graph, seen, key);
  }

  /** One more key adds its own pairs, its own name and the names it follows. */
  lemma OneMoreKey(graph: map<string, set<string>>, seen: set<string>, key: string)
    requires key in graph
    ensures PairsOf(graph, seen + {key}) == PairsOf(graph, seen) + Tagged(key, graph[key])
    ensures KeyNames(seen + {key}) == KeyNames(seen) + {Lower(key)}
    ensures FollowedNames(PairsOf(graph, seen) + Tagged(key, graph[key])) ==
      FollowedNames(PairsOf(graph, seen)) + LowerAll(graph[key])
  {
    FollowedNamesOfTagged(PairsOf(graph, seen), key, graph[key]);
  }

  /** The followed names of `pairs` and of `key`'s pairs with `names`. */
  lemma FollowedNamesOfTagged(pairs: set<(string, string)>, key: string, names: set<string>)
    ensures FollowedNames(pairs + Tagged(key, names)) == FollowedNames(pairs) + LowerAll(names)
  {
    forall u | u in FollowedNames(pairs + Tagged(key, names))
      ensures u in FollowedNames(pairs) + LowerAll(names)
    {
      var p :| p in pairs + Tagged(key, names) && Lower(p.1) == u;
      if p !in pairs {
        assert p.1 in names;
      }
    }
    forall u | u in LowerAll(names) ensures u in FollowedNames(pairs + Tagged(key, names)) {
      var n :| n in names && Lower(n) == u;
      assert (key, n) in Tagged(key, names);
    }
  }

  /**
   * `influencers(graph)`: every name of the graph, lowercased, once, in
   * descending order of follower count, ties in ascending name order.
   */
  method Influencers(graph: map<string, set<string>>) returns (r: seq<string>)
    ensures Distinct(r)
    ensures forall u :: u in r <==> u in Users(graph)
    ensures forall i, j | 0 <= i < j < |r| ::
      Followers(graph, r[i]) > Followers(graph, r[j]) ||
      (Followers(graph, r[i]) == Followers(graph, r[j]) && CompareStrings(r[i], r[j]) < 0)
    ensures graph == map[] ==> r == []
  {
    var influenceMap := CountInfluence(graph);
    var users := SetToSeq(influenceMap.Keys);
    var entries := Entries(users, influenceMap);
    var sorted := Sort(entries, CompareInfluence);
    r := Names(sorted);
    RankedByInfluence(graph, influenceMap, users, sorted);
  }

  /** Each of `users` paired with its count. */
  function Entries(users: seq<string>, influence: map<string, int>): (es: seq<(string, int)>)
    requires forall u | u in users :: u in influence
    ensures |es| == |users|
    ensures forall k | 0 <= k < |users| :: es[k] == (users[k], influence[users[k]])
  {
    seq(|users|, k requires 0 <= k < |users| => (users[k], influence[users[k]]))
  }

  /** The names of the entries, in order. */
  function Names(es: seq<(string, int)>): (names: seq<string>)
    ensures |names| == |es|
    ensures forall k | 0 <= k < |es| :: names[k] == es[k].0
  {
    seq(|es|, k requires 0 <= k < |es| => es[k].0)
  }

  /** Every entry pairs a name with that name's count. */
  ghost predicate Keyed(es: seq<(string, int)>, influence: map<string, int>) {
    forall e | e in es :: e.0 in influence && e.1 == influence[e.0]
  }

  /** The entries of distinct users are keyed, distinct, and cover the users. */
  lemma EntriesKeyed(users: seq<string>, influence: map<string, int>)
    requires Distinct(users) && forall u | u in users :: u in influence
    ensures Keyed(Entries(users, influence), influence) && Distinct(Entries(users, influence))
    ensures forall u | u in users :: (u, influence[u]) in Entries(users, influence)
  {
    var es := Entries(users, influence);
    forall u | u in users ensures (u, influence[u]) in es {
      var k :| 0 <= k < |users| && users[k] == u;
      assert es[k] == (u, influence[u]);
    }
  }

  /**
   * In a keyed sequence sorted by the comparator with no entry twice, the
   * names are distinct and run from most to fewest followers, ties by name.
   */
  lemma KeyedSortedRanks(sorted: seq<(string, int)>, influence: map<string, int>)
    requires Keyed(sorted, influence) && Distinct(sorted) && Sorted(sorted, CompareInfluence)
    ensures Distinct(Names(sorted))
    ensures forall i, j | 0 <= i < j < |sorted| ::
      influence[sorted[i].0] > influence[sorted[j].0] ||
      (influence[sorted[i].0] == influence[sorted[j].0] && CompareStrings(sorted[i].0, sorted[j].0) < 0)
  {
    var r := Names(sorted);
    forall i, j | 0 <= i < j < |sorted|
      ensures r[i] != r[j]
      ensures influence[sorted[i].0] > influence[sorted[j].0] ||
        (influence[sorted[i].0] == influence[sorted[j].0] && CompareStrings(sorted[i].0, sorted[j].0) < 0)
    {
      assert sorted[i] in sorted && sorted[j] in sorted;
      assert CompareInfluence(sorted[i], sorted[j]) <= 0;
    }
  }

  /** Sorting keyed, distinct entries keeps them keyed and distinct and puts them in comparator order. */
  lemma SortedEntries(users: seq<string>, influence: map<string, int>, sorted: seq<(string, int)>)
    requires Distinct(users) && forall u | u in users :: u in influence
    requires sorted == Sort(Entries(users, influence), CompareInfluence)
    ensures Keyed(sorted, influence) && Distinct(sorted) && Sorted(sorted, CompareInfluence)
  {
    var entries := Entries(users, influence);
    EntriesKeyed(users, influence);
    SortDistinct(entries, CompareInfluence);
    CompareInfluenceAntisymmetric();
    SortAdjacentSorted(entries, CompareInfluence);
    CompareInfluenceTransitive();
    AdjacentSortedIsSorted(sorted, CompareInfluence);
  }

  /** The sorted entries name exactly the counted users. */
  lemma SortedNames(users: seq<string>, influence: map<string, int>, sorted: seq<(string, int)>)
    requires Distinct(users) && forall u :: u in users <==> u in influence
    requires sorted == Sort(Entries(users, influence), CompareInfluence)
    ensures forall u :: u in Names(sorted) <==> u in influence
    ensures forall i | 0 <= i < |sorted| :: sorted[i].0 in influence
  {
    EntriesKeyed(users, influence);
    var r := Names(sorted);
    forall u ensures u in r <==> u in influence {
      if u in influence {
        assert (u, influence[u]) in sorted;
        var m :| 0 <= m < |sorted| && sorted[m] == (u, influence[u]);
        assert r[m] == u;
      }
    }
    forall i | 0 <= i < |sorted| ensures sorted[i].0 in influence {
      assert sorted[i] in sorted;
    }
  }

  /** Sorting the entries of all counted names ranks exactly those names. */
  lemma RankedByCounts(influence: map<string, int>, users: seq<string>, sorted: seq<(string, int)>)
    requires Distinct(users) && forall u :: u in users <==> u in influence
    requires sorted == Sort(Entries(users, influence), CompareInfluence)
    ensures Distinct(Names(sorted))
    ensures forall u :: u in Names(sorted) <==> u in influence
    ensures forall i | 0 <= i < |sorted| :: sorted[i].0 in influence
    ensures forall i, j | 0 <= i < j < |sorted| ::
      influence[sorted[i].0] > influence[sorted[j].0] ||
      (influence[sorted[i].0] == influence[sorted[j].0] && CompareStrings(sorted[i].0, sorted[j].0) < 0)
  {
    SortedEntries(users, influence, sorted);
    KeyedSortedRanks(sorted, influence);
    SortedNames(users, influence, sorted);
  }

  /** What the final sort and name extraction of `influencers` give, once the counts are known. */
  lemma RankedByInfluence(graph: map<string, set<string>>, influence: map<string, int>,
                          users: seq<string>, sorted: seq<(string, int)>)
    requires forall u | u in influence :: influence[u] == Followers(graph, u)
    requires influence.Keys == Users(graph)
    requires Distinct(users) && forall u :: u in users <==> u in influence
    requires sorted == Sort(Entries(users, influence), CompareInfluence)
    ensures Distinct(Names(sorted))
    ensures forall u :: u in Names(sorted) <==> u in Users(graph)
    ensures forall i, j | 0 <= i < j < |Names(sorted)| ::
      Followers(graph, Names(sorted)[i]) > Followers(graph, Names(sorted)[j]) ||
      (Followers(graph, Names(sorted)[i]) == Followers(graph, Names(sorted)[j]) &&
       CompareStrings(Names(sorted)[i], Names(sorted)[j]) < 0)
  {
    RankedByCounts(influence, users, sorted);
  }
}
