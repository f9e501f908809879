/**
 * `findTopTrendingHashtags`: count the hashtags (`#\w+`) of the tweets dated
 * February 2024, then rank them by count (descending) and tag (ascending)
 * and keep the first three. The printed table is not modelled.
 */
module TrendingHashtags {

  datatype Tweet = Tweet(userId: int, tweetId: int, text: string, date: string)

  type Entry = (string, int)

  const Month: string := "2024-02"

  /** `String.startsWith`. */
  predicate StartsWith(s: string, prefix: string) {
    |prefix| <= |s| && s[..|prefix|] == prefix
  }

  /** `\w` without the UNICODE_CHARACTER_CLASS flag: `[a-zA-Z_0-9]`. */
  predicate IsWordChar(c: char) {
    ('a' <= c <= 'z') || ('A' <= c <= 'Z') || ('0' <= c <= '9') || c == '_'
  }

  /** A match of `#\w+` can start at position i. */
  predicate MatchStart(s: string, i: nat) {
    i + 1 < |s| && s[i] == '#' && IsWordChar(s[i + 1])
  }

  /** The end of the greedy run of word characters that starts at i. */
  function WordEnd(s: string, i: nat): (e: nat)
    requires i <= |s|
    ensures i <= e <= |s|
    ensures forall k :: i <= k < e ==> IsWordChar(s[k])
    ensures e == |s| || !IsWordChar(s[e])
    decreases |s| - i
  {
    if i == |s| || !IsWordChar(s[i]) then i else WordEnd(s, i + 1)
  }

  /**
   * The spans [start, end) that successive `Matcher.find()` calls return when
   * the search resumes at position `from`.
   */
  function Spans(s: string, from: nat): seq<(nat, nat)>
    requires from <= |s|
    decreases |s| - from
  {
    if from == |s| then []
    else if MatchStart(s, from) then [(from, WordEnd(s, from + 1))] + Spans(s, WordEnd(s, from + 1))
    else Spans(s, from + 1)
  }

  /** A well-formed span: '#', then a maximal non-empty run of word characters. */
  predicate IsHashtagSpan(s: string, span: (nat, nat)) {
    var (b, e) := span;
    && b + 1 < e <= |s|
    && s[b] == '#'
    && (forall k :: b + 1 <= k < e ==> IsWordChar(s[k]))
    && (e == |s| || !IsWordChar(s[e]))
  }

  /** Every span is a maximal `#\w+` match, and spans come left to right without overlap. */
  lemma {:induction false} SpansWellFormed(s: string, from: nat)
    requires from <= |s|
    ensures forall k :: 0 <= k < |Spans(s, from)| ==>
      IsHashtagSpan(s, Spans(s, from)[k]) && from <= Spans(s, from)[k].0
    ensures forall k :: 0 <= k < |Spans(s, from)| - 1 ==> Spans(s, from)[k].1 <= Spans(s, from)[k + 1].0
    decreases |s| - from
  {
    if from < |s| {
      if MatchStart(s, from) {
        var e := WordEnd(s, from + 1);
        SpansWellFormed(s, e);
        var rest := Spans(s, e);
        assert Spans(s, from) == [(from, e)] + rest;
      } else {
        SpansWellFormed(s, from + 1);
      }
    }
  }

  /** A position at or after `from` starts a span exactly when a match can start there. */
  lemma {:induction false} SpansComplete(s: string, from: nat, p: nat)
    requires from <= p < |s|
    ensures MatchStart(s, p) <==> exists k :: 0 <= k < |Spans(s, from)| && Spans(s, from)[k].0 == p
    decreases |s| - from
  {
    SpansWellFormed(s, from);
    var all := Spans(s, from);
    if MatchStart(s, from) {
      var e := WordEnd(s, from + 1);
      var rest := Spans(s, e);
      assert all == [(from, e)] + rest;
      SpansWellFormed(s, e);
      if p == from {
        assert Spans(s, from)[0].0 == p;
      } else if p < e {
        assert !MatchStart(s, p);
        forall k | 0 <= k < |all| ensures all[k].0 != p {
          if k > 0 {
            assert all[k] == rest[k - 1];
          }
        }
      } else {
        SpansComplete(s, e, p);
        if MatchStart(s, p) {
          var k :| 0 <= k < |rest| && rest[k].0 == p;
          assert all[k + 1].0 == p;
        } else {
          forall k | 0 <= k < |all| ensures all[k].0 != p {
            if k > 0 {
              assert all[k] == rest[k - 1];
            }
          }
        }
      }
    } else if p == from {
      SpansWellFormed(s, from + 1);
      assert all == Spans(s, from + 1);
    } else {
      SpansComplete(s, from + 1, p);
      var next := Spans(s, from + 1);
      assert all == next;
      if MatchStart(s, p) {
        var k :| 0 <= k < |next| && next[k].0 == p;
        assert Spans(s, from)[k].0 == p;
      } else {
        forall k | 0 <= k < |all| ensures all[k].0 != p {
          assert all[k] == next[k];
        }
      }
    }
  }

  /** The hashtags of one text, in order of appearance. */
  function Hashtags(text: string): seq<string> {
    SpansWellFormed(text, 0);
    var spans := Spans(text, 0);
    seq(|spans|, k requires 0 <= k < |spans| => text[spans[k].0..spans[k].1])
  }

  /** Every extracted tag is '#' followed by one or more word characters. */
  lemma HashtagShape(text: string)
    ensures forall k :: 0 <= k < |Hashtags(text)| ==>
      var tag := Hashtags(text)[k];
      |tag| >= 2 && tag[0] == '#' && forall c :: 1 <= c < |tag| ==> IsWordChar(tag[c])
  {
    SpansWellFormed(text, 0);
    var spans := Spans(text, 0);
    forall k | 0 <= k < |Hashtags(text)|
      ensures var tag := Hashtags(text)[k];
        |tag| >= 2 && tag[0] == '#' && forall c :: 1 <= c < |tag| ==> IsWordChar(tag[c])
    {
      var (b, e) := spans[k];
      assert IsHashtagSpan(text, spans[k]);
      var tag := Hashtags(text)[k];
      assert tag == text[b..e];
      forall c | 1 <= c < |tag| ensures IsWordChar(tag[c]) {
        assert tag[c] == text[b + c];
      }
    }
  }

  /** All hashtags of the tweets that pass the date filter, tweet by tweet. */
  function CountedTags(tweets: seq<Tweet>): seq<string> {
    if tweets == [] then []
    else
      var last := tweets[|tweets| - 1];
      CountedTags(tweets[..|tweets| - 1]) + (if StartsWith(last.date, Month) then Hashtags(last.text) else [])
  }

  /** `String.compareTo(...) < 0`: lexicographic on characters, a proper prefix first. */
  predicate StrLess(a: string, b: string) {
    if a == [] then b != []
    else if b == [] then false
    else if a[0] != b[0] then a[0] < b[0]
    else StrLess(a[1..], b[1..])
  }

  lemma {:induction false} StrLessIrreflexive(a: string)
    ensures !StrLess(a, a)
  {
    if a != [] {
      StrLessIrreflexive(a[1..]);
    }
  }

  lemma {:induction false} StrLessTotal(a: string, b: string)
    requires a != b
    ensures StrLess(a, b) || StrLess(b, a)
  {
    if a != [] && b != [] && a[0] == b[0] {
      assert a == [a[0]] + a[1..] && b == [b[0]] + b[1..];
      StrLessTotal(a[1..], b[1..]);
    }
  }

  lemma {:induction false} StrLessTransitive(a: string, b: string, c: string)
    requires StrLess(a, b) && StrLess(b, c)
    ensures StrLess(a, c)
  {
    if a != [] && b != [] && c != [] && a[0] == b[0] && b[0] == c[0] {
      StrLessTransitive(a[1..], b[1..], c[1..]);
    }
  }

  /** The comparator of the stream's `sorted`: higher count first, then the smaller tag. */
  predicate Precedes(x: Entry, y: Entry) {
    x.1 > y.1 || (x.1 == y.1 && StrLess(x.0, y.0))
  }

  lemma PrecedesTransitive(x: Entry, y: Entry, z: Entry)
    requires Precedes(x, y) && Precedes(y, z)
    ensures Precedes(x, z)
  {
    if x.1 == y.1 == z.1 {
      StrLessTransitive(x.0, y.0, z.0);
    }
  }

  /** `k` comes before every other tag of `keys`. */
  predicate IsFirst(k: string, keys: set<string>, count: map<string, int>)
    requires keys <= count.Keys
  {
    k in keys && forall o :: o in keys && o != k ==> Precedes((k, count[k]), (o, count[o]))
  }

  lemma {:induction false} FirstExists(keys: set<string>, count: map<string, int>)
    requires keys != {} && keys <= count.Keys
    ensures exists k :: IsFirst(k, keys, count)
    decreases |keys|
  {
    var x :| x in keys;
    if keys == {x} {
      assert IsFirst(x, keys, count);
    } else {
      FirstExists(keys - {x}, count);
      var k :| IsFirst(k, keys - {x}, count);
      StrLessTotal(x, k);
      if Precedes((x, count[x]), (k, count[k])) {
        forall o | o in keys && o != x ensures Precedes((x, count[x]), (o, count[o])) {
          if o != k {
            PrecedesTransitive((x, count[x]), (k, count[k]), (o, count[o]));
          }
        }
        assert IsFirst(x, keys, count);
      } else {
        assert IsFirst(k, keys, count);
      }
    }
  }

  lemma FirstUnique(k: string, k': string, keys: set<string>, count: map<string, int>)
    requires keys <= count.Keys
    requires IsFirst(k, keys, count) && IsFirst(k', keys, count)
    ensures k == k'
  {
    if k' != k {
      StrLessIrreflexive(k);
      PrecedesTransitive((k, count[k]), (k', count[k']), (k, count[k]));
    }
  }

  /** The tag that the comparator puts first among `keys`. */
  function First(keys: set<string>, count: map<string, int>): (k: string)
    requires keys != {} && keys <= count.Keys
    ensures IsFirst(k, keys, count)
  {
    FirstExists(keys, count);
    var k :| IsFirst(k, keys, count);
    assert forall k' :: IsFirst(k', keys, count) ==> k' == k by {
      forall k' | IsFirst(k', keys, count) ensures k' == k {
        FirstUnique(k, k', keys, count);
      }
    }
    k
  }

  /**
   * `r` lists the entries of `count` whose tags are `keys`, each once, in
   * strictly increasing comparator order.
   */
  predicate IsRanking(r: seq<Entry>, keys: set<string>, count: map<string, int>)
    requires keys <= count.Keys
  {
    && |r| == |keys|
    && (forall i :: 0 <= i < |r| ==> r[i].0 in keys && r[i].1 == count[r[i].0])
    && (forall k :: k in keys ==> exists i :: 0 <= i < |r| && r[i].0 == k)
    && (forall i, j :: 0 <= i < j < |r| ==> Precedes(r[i], r[j]))
  }

  lemma RankingCons(k: string, keys: set<string>, count: map<string, int>, rest: seq<Entry>)
    requires keys <= count.Keys
    requires IsFirst(k, keys, count) && IsRanking(rest, keys - {k}, count)
    ensures IsRanking([(k, count[k])] + rest, keys, count)
  {
    var r := [(k, count[k])] + rest;
    assert |keys - {k}| == |keys| - 1;
    forall o | o in keys ensures exists i :: 0 <= i < |r| && r[i].0 == o {
      if o == k {
        assert r[0].0 == o;
      } else {
        assert o in keys - {k};
        var j :| 0 <= j < |rest| && rest[j].0 == o;
        assert r[j + 1].0 == o;
      }
    }
    forall i, j | 0 <= i < j < |r| ensures Precedes(r[i], r[j]) {
      if i > 0 {
        assert r[i] == rest[i - 1] && r[j] == rest[j - 1];
      } else {
        assert r[j] == rest[j - 1];
      }
    }
  }

  /** The entries of `count` restricted to `keys`, in the comparator's order. */
  function Sorted(keys: set<string>, count: map<string, int>): (r: seq<Entry>)
    requires keys <= count.Keys
    ensures IsRanking(r, keys, count)
    decreases |keys|
  {
    if keys == {} then []
    else
      var k := First(keys, count);
      var rest := Sorted(keys - {k}, count);
      RankingCons(k, keys, count, rest);
      [(k, count[k])] + rest
  }

  /** `.sorted(...).limit(3)` over the count map's entries. */
  function TopThree(count: map<string, int>): seq<Entry> {
    var all := Sorted(count.Keys, count);
    if |all| <= 3 then all else all[..3]
  }

  /** The ranking: at most three entries, in order, and nothing better left out. */
  lemma TopThreeRanking(count: map<string, int>)
    ensures |TopThree(count)| == if |count| < 3 then |count| else 3
    ensures forall i :: 0 <= i < |TopThree(count)| ==>
      TopThree(count)[i].0 in count && TopThree(count)[i].1 == count[TopThree(count)[i].0]
    ensures forall i, j :: 0 <= i < j < |TopThree(count)| ==> Precedes(TopThree(count)[i], TopThree(count)[j])
    ensures forall h :: h in count && (forall i :: 0 <= i < |TopThree(count)| ==> TopThree(count)[i].0 != h) ==>
      |TopThree(count)| == 3 && Precedes(TopThree(count)[2], (h, count[h]))
  {
    var all := Sorted(count.Keys, count);
    var top := TopThree(count);
    assert |count.Keys| == |count|;
    assert top == if |all| <= 3 then all else all[..3];
    forall i | 0 <= i < |top| ensures top[i] == all[i] {
    }
    forall h | h in count && (forall i :: 0 <= i < |top| ==> top[i].0 != h)
      ensures |top| == 3 && Precedes(top[2], (h, count[h]))
    {
      var i :| 0 <= i < |all| && all[i].0 == h;
      assert i >= |top|;
    }
  }

  /** `count` holds, for every tag of `tags`, its number of occurrences, and no other key. */
  ghost predicate Counts(count: map<string, int>, tags: seq<string>) {
    && (forall h :: h in count <==> h in tags)
    && (forall h :: h in count ==> count[h] == multiset(tags)[h])
  }

  /** `hashtagCount.put(hashtag, hashtagCount.getOrDefault(hashtag, 0) + 1)`. */
  lemma CountsAppend(count: map<string, int>, tags: seq<string>, h: string)
    requires Counts(count, tags)
    ensures Counts(count[h := (if h in count then count[h] else 0) + 1], tags + [h])
  {
    assert multiset(tags + [h]) == multiset(tags) + multiset{h};
  }

  lemma CountedTagsStep(tweets: seq<Tweet>, t: nat)
    requires t < |tweets|
    ensures CountedTags(tweets[..t + 1]) ==
      CountedTags(tweets[..t]) + (if StartsWith(tweets[t].date, Month) then Hashtags(tweets[t].text) else [])
  {
    assert tweets[..t + 1][..t] == tweets[..t];
  }

  /** The `while (matcher.find())` loop over the tags of one tweet. */
  method Tally(count: map<string, int>, ghost before: seq<string>, tags: seq<string>) returns (updated: map<string, int>)
    requires Counts(count, before)
    ensures Counts(updated, before + tags)
  {
    updated := count;
    var m := 0;
    while m < |tags|
      invariant 0 <= m <= |tags|
      invariant Counts(updated, before + tags[..m])
    {
      assert before + tags[..m + 1] == (before + tags[..m]) + [tags[m]];
      var hashtag := tags[m];
      CountsAppend(updated, before + tags[..m], hashtag);
      var seen := if hashtag in updated then updated[hashtag] else 0;
      updated := updated[hashtag := seen + 1];
      m := m + 1;
    }
    assert tags[..m] == tags;
  }

  /** `findTopTrendingHashtags` up to the table printing. */
  method FindTopTrendingHashtags(tweets: seq<Tweet>) returns (count: map<string, int>, top: seq<Entry>)
    ensures forall h :: h in count <==> h in CountedTags(tweets)
    ensures forall h :: h in count ==> count[h] == multiset(CountedTags(tweets))[h]
    ensures top == TopThree(count)
  {
    count := map[];
    var t := 0;
    while t < |tweets|
      invariant 0 <= t <= |tweets|
      invariant Counts(count, CountedTags(tweets[..t]))
    {
      ghost var before := CountedTags(tweets[..t]);
      CountedTagsStep(tweets, t);
      if StartsWith(tweets[t].date, Month) {
        count := Tally(count, before, Hashtags(tweets[t].text));
      } else {
        assert before + [] == before;
      }
      t := t + 1;
    }
    assert tweets[..t] == tweets;
    top := TopThree(count);
  }
}
