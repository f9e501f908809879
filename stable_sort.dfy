/**
 * The `List.sort(Comparator.comparingInt(...))` calls of the network
 * modules: a stable sort of a sequence by an integer key, as an insertion
 * sort.
 */
module StableSort {

  /** Keys never decrease along the sequence. */
  predicate SortedBy<T>(s: seq<T>, key: T -> int) {
    forall i, j :: 0 <= i <= j < |s| ==> key(s[i]) <= key(s[j])
  }

  /** Inserts e before the first element whose key is not smaller, so earlier equal elements stay first. */
  function InsertBy<T>(e: T, s: seq<T>, key: T -> int): (r: seq<T>)
    ensures |r| == |s| + 1 && multiset(r) == multiset(s) + multiset{e}
    ensures r[0] == e || (|s| > 0 && r[0] == s[0])
    ensures SortedBy(s, key) ==> SortedBy(r, key)
  {
    if |s| == 0 || key(e) <= key(s[0]) then [e] + s
    else
      var rest := InsertBy(e, s[1..], key);
      assert s == [s[0]] + s[1..];
      assert multiset(s) == multiset{s[0]} + multiset(s[1..]);
      ConsSorted(e, s, rest, key);
      [s[0]] + rest
  }

  /** Putting the head back in front of the insertion into the tail keeps a sorted sequence sorted. */
  lemma ConsSorted<T>(e: T, s: seq<T>, rest: seq<T>, key: T -> int)
    requires |s| > 0 && key(s[0]) < key(e)
    requires multiset(rest) == multiset(s[1..]) + multiset{e}
    requires SortedBy(s[1..], key) ==> SortedBy(rest, key)
    ensures SortedBy(s, key) ==> SortedBy([s[0]] + rest, key)
  {
    if SortedBy(s, key) {
      forall j | 0 <= j < |rest| ensures key(s[0]) <= key(rest[j]) {
        assert rest[j] in multiset(rest);
        if rest[j] != e {
          assert rest[j] in multiset(s[1..]);
          var k :| 0 <= k < |s[1..]| && s[1..][k] == rest[j];
          assert s[k + 1] == rest[j];
        }
      }
      assert SortedBy(s[1..], key);
    }
  }

  /** The sorted sequence is a permutation of the input. */
  function SortBy<T>(s: seq<T>, key: T -> int): (r: seq<T>)
    ensures multiset(r) == multiset(s) && SortedBy(r, key)
  {
    if |s| == 0 then []
    else
      assert s == [s[0]] + s[1..];
      InsertBy(s[0], SortBy(s[1..], key), key)
  }

  /** Sorting a sequence that is already sorted changes nothing, so the sort is stable on sorted input. */
  lemma {:induction false} SortSorted<T>(s: seq<T>, key: T -> int)
    requires SortedBy(s, key)
    ensures SortBy(s, key) == s
  {
    if |s| > 0 {
      assert SortedBy(s[1..], key);
      SortSorted(s[1..], key);
      assert s == [s[0]] + s[1..];
    }
  }

  /** The elements whose key is k, in their order in s. */
  function WithKey<T>(s: seq<T>, key: T -> int, k: int): seq<T> {
    if |s| == 0 then [] else (if key(s[0]) == k then [s[0]] else []) + WithKey(s[1..], key, k)
  }

  /** WithKey of a sequence with a known head. */
  lemma WithKeyCons<T>(x: T, t: seq<T>, key: T -> int, k: int)
    ensures WithKey([x] + t, key, k) == (if key(x) == k then [x] else []) + WithKey(t, key, k)
  {
    assert ([x] + t)[0] == x && ([x] + t)[1..] == t;
  }

  /** Moving e in front of a head x of smaller key does not change the elements of any one key. */
  lemma WithKeySwap<T>(x: T, e: T, t: seq<T>, rest: seq<T>, key: T -> int, k: int)
    requires key(x) < key(e)
    requires WithKey(rest, key, k) == (if key(e) == k then [e] else []) + WithKey(t, key, k)
    ensures WithKey([x] + rest, key, k) == (if key(e) == k then [e] else []) + WithKey([x] + t, key, k)
  {
    WithKeyCons(x, rest, key, k);
    WithKeyCons(x, t, key, k);
  }

  /** Inserting e puts it first among the elements of its key, and the order among every key's elements is kept. */
  lemma {:induction false} InsertByWithKey<T>(e: T, s: seq<T>, key: T -> int, k: int)
    ensures WithKey(InsertBy(e, s, key), key, k) == (if key(e) == k then [e] else []) + WithKey(s, key, k)
  {
    if |s| == 0 || key(e) <= key(s[0]) {
      WithKeyCons(e, s, key, k);
    } else {
      InsertByWithKey(e, s[1..], key, k);
      assert s == [s[0]] + s[1..];
      WithKeySwap(s[0], e, s[1..], InsertBy(e, s[1..], key), key, k);
    }
  }

  /** Stability: the elements of each key come out in the order they went in. */
  lemma {:induction false} SortByStable<T>(s: seq<T>, key: T -> int, k: int)
    ensures WithKey(SortBy(s, key), key, k) == WithKey(s, key, k)
  {
    if |s| > 0 {
      SortByStable(s[1..], key, k);
      InsertByWithKey(s[0], SortBy(s[1..], key), key, k);
    }
  }
}
