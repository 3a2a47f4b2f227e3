/** Python's stable `list.sort(key=...)` followed by taking element 0, as
    lyricsync_pro/downloader.py does twice: for the longest title token
    (line 85-86) and for the song closest in duration (lines 132-133). */
module Selection {

  /** One step of a stable insertion sort: `x`, which came before every
      element of `s`, goes in front of the first element whose key is not
      smaller than its own. */
  function InsertBy<T>(x: T, s: seq<T>, key: T -> int): (r: seq<T>)
    ensures multiset(r) == multiset(s) + multiset{x}
  {
    if s == [] || key(x) <= key(s[0]) then [x] + s
    else
      assert s == [s[0]] + s[1..];
      [s[0]] + InsertBy(x, s[1..], key)
  }

  /** `sorted(s, key=key)`: stable, ascending by key. */
  function SortBy<T>(s: seq<T>, key: T -> int): (r: seq<T>)
    ensures multiset(r) == multiset(s)
  {
    if s == [] then []
    else
      assert s == [s[0]] + s[1..];
      InsertBy(s[0], SortBy(s[1..], key), key)
  }

  predicate SortedBy<T>(s: seq<T>, key: T -> int) {
    forall i, j :: 0 <= i < j < |s| ==> key(s[i]) <= key(s[j])
  }

  /** The earliest position of a smallest key: the reference definition of
      what a stable sort puts first. */
  function ArgMin<T>(s: seq<T>, key: T -> int): (i: nat)
    requires |s| >= 1
    ensures i < |s|
    ensures forall j :: 0 <= j < |s| ==> key(s[i]) <= key(s[j])
    ensures forall j :: 0 <= j < i ==> key(s[i]) < key(s[j])
  {
    if |s| == 1 then 0
    else
      var j := ArgMin(s[1..], key) + 1;
      if key(s[0]) <= key(s[j]) then 0 else j
  }

  /** No key of `s` is below `k`. */
  predicate KeysAtLeast<T>(s: seq<T>, k: int, key: T -> int) {
    forall i :: 0 <= i < |s| ==> k <= key(s[i])
  }

  lemma {:induction false} InsertByKeysAtLeast<T>(x: T, s: seq<T>, k: int, key: T -> int)
    requires KeysAtLeast(s, k, key) && k <= key(x)
    ensures KeysAtLeast(InsertBy(x, s, key), k, key)
  {
    if s != [] && key(x) > key(s[0]) {
      InsertByKeysAtLeast(x, s[1..], k, key);
      var r := InsertBy(x, s[1..], key);
      assert InsertBy(x, s, key) == [s[0]] + r;
      forall i | 0 <= i < |r| + 1 ensures k <= key(([s[0]] + r)[i]) {
        if i > 0 {
          assert ([s[0]] + r)[i] == r[i - 1];
        }
      }
    }
  }

  lemma {:induction false} InsertBySorted<T>(x: T, s: seq<T>, key: T -> int)
    requires SortedBy(s, key)
    ensures SortedBy(InsertBy(x, s, key), key)
  {
    if s != [] && key(x) > key(s[0]) {
      InsertBySorted(x, s[1..], key);
      InsertByKeysAtLeast(x, s[1..], key(s[0]), key);
      var r := InsertBy(x, s[1..], key);
      assert InsertBy(x, s, key) == [s[0]] + r;
      forall i, j | 0 <= i < j < |r| + 1 ensures key(([s[0]] + r)[i]) <= key(([s[0]] + r)[j]) {
        assert ([s[0]] + r)[j] == r[j - 1];
        if i > 0 {
          assert ([s[0]] + r)[i] == r[i - 1];
        }
      }
    }
  }

  /** The sort is a sort: ascending by key, and (by its contract) a
      permutation. */
  lemma {:induction false} SortBySorted<T>(s: seq<T>, key: T -> int)
    ensures SortedBy(SortBy(s, key), key)
  {
    if s != [] {
      SortBySorted(s[1..], key);
      InsertBySorted(s[0], SortBy(s[1..], key), key);
    }
  }

  /** Stability at the front: the first element of the sorted list is the
      earliest element with the smallest key. */
  lemma {:induction false} SortByFirst<T>(s: seq<T>, key: T -> int)
    requires |s| >= 1
    ensures |SortBy(s, key)| == |s|
    ensures SortBy(s, key)[0] == s[ArgMin(s, key)]
  {
    assert |multiset(SortBy(s, key))| == |multiset(s)|;
    if |s| > 1 {
      var rest := SortBy(s[1..], key);
      SortByFirst(s[1..], key);
      assert rest[0] == s[ArgMin(s[1..], key) + 1];
    }
  }
}
