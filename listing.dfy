/** Keys, entries and ordered listings: the vocabulary shared by the tree engine and the container. */
module Listing {

  /** Keys are integers. The three-way comparison is the one the tests install. */
  type Key = int

  /** The comparator `a - b`: negative, zero or positive as `a` is below, equal to or above `b`. */
  function Compare(a: Key, b: Key): (c: int)
    ensures c < 0 <==> a < b
    ensures c == 0 <==> a == b
    ensures c > 0 <==> a > b
  {
    a - b
  }

  /** Result of a lookup: `None` plays the role of the pair (nil, false). */
  datatype Option<T> = None | Some(value: T)

  /** A key-value pair as produced by the ordered listing. */
  datatype Entry<V> = Entry(key: Key, value: V)

  /** Keys strictly increase along the listing (so no key appears twice). */
  predicate StrictlySorted<V>(s: seq<Entry<V>>)
  {
    forall i, j :: 0 <= i < j < |s| ==> s[i].key < s[j].key
  }

  /** The map a listing describes; a later entry overrides an earlier one with the same key. */
  function MapOf<V>(s: seq<Entry<V>>): map<Key, V>
  {
    if s == [] then map[] else map[s[0].key := s[0].value] + MapOf(s[1..])
  }

  /** What a lookup of `k` in `m` answers. */
  function Lookup<V>(m: map<Key, V>, k: Key): Option<V>
  {
    if k in m then Some(m[k]) else None
  }

  /** The part of `m` with keys strictly below `k`. */
  function Below<V>(m: map<Key, V>, k: Key): map<Key, V>
  {
    map x | x in m && x < k :: m[x]
  }

  /** The part of `m` with keys strictly above `k`. */
  function Above<V>(m: map<Key, V>, k: Key): map<Key, V>
  {
    map x | x in m && x > k :: m[x]
  }

  /** The part of `m` with keys at or above `k`. */
  function AtLeast<V>(m: map<Key, V>, k: Key): map<Key, V>
  {
    map x | x in m && x >= k :: m[x]
  }

  /** The upper half of a split: keys above `k`, or at or above `k` when the pivot is kept. */
  function Upper<V>(m: map<Key, V>, k: Key, keep: bool): map<Key, V>
  {
    if keep then AtLeast(m, k) else Above(m, k)
  }

  /** Looking up in `a + {key: v} + c` a key that only `a` can hold. */
  lemma LookupLeft<V>(a: map<Key, V>, key: Key, v: V, c: map<Key, V>, k: Key)
    requires k != key && k !in c
    ensures Lookup(a + map[key := v] + c, k) == Lookup(a, k)
  {
  }

  /** Looking up in `a + {key: v} + c` a key that only `c` can hold. */
  lemma LookupRight<V>(a: map<Key, V>, key: Key, v: V, c: map<Key, V>, k: Key)
    requires k != key && k !in a
    ensures Lookup(a + map[key := v] + c, k) == Lookup(c, k)
  {
  }

  /** Looking up in `a + {key: v} + c` the key `key` itself. */
  lemma LookupMiddle<V>(a: map<Key, V>, key: Key, v: V, c: map<Key, V>)
    requires key !in c
    ensures Lookup(a + map[key := v] + c, key) == Some(v)
  {
  }

  /** Updating a key that only `a` can hold commutes with the union `a + {key: v} + c`. */
  lemma UpdateLeft<V>(a: map<Key, V>, key: Key, v: V, c: map<Key, V>, k: Key, w: V)
    requires k != key && k !in c
    ensures a[k := w] + map[key := v] + c == (a + map[key := v] + c)[k := w]
    ensures a[k := w].Keys == a.Keys + {k}
  {
  }

  /** Updating the right part of `a + {key: v} + c` updates the whole. */
  lemma UpdateRight<V>(a: map<Key, V>, key: Key, v: V, c: map<Key, V>, k: Key, w: V)
    ensures a + map[key := v] + c[k := w] == (a + map[key := v] + c)[k := w]
    ensures c[k := w].Keys == c.Keys + {k}
  {
  }

  /** Replacing the middle value of `a + {key: v} + c` when `c` does not hold `key`. */
  lemma UpdateMiddle<V>(a: map<Key, V>, key: Key, v: V, c: map<Key, V>, w: V)
    requires key !in c
    ensures a + map[key := w] + c == (a + map[key := v] + c)[key := w]
  {
  }

  /** Splitting `a + {key: v} + c` (a below key, c above) at a pivot above `key`. */
  lemma SplitAbove<V>(a: map<Key, V>, key: Key, v: V, c: map<Key, V>, k: Key, keep: bool)
    requires forall x :: x in a ==> x < key
    requires forall x :: x in c ==> key < x
    requires key < k
    ensures (a + Below(c, k))[key := v] == Below(a + map[key := v] + c, k)
    ensures Upper(c, k, keep) == Upper(a + map[key := v] + c, k, keep)
  {
  }

  /** Splitting `a + {key: v} + c` (a below key, c above) at a pivot at or below `key`. */
  lemma SplitAtOrBelow<V>(a: map<Key, V>, key: Key, v: V, c: map<Key, V>, k: Key, keep: bool)
    requires forall x :: x in a ==> x < key
    requires forall x :: x in c ==> key < x
    requires k <= key
    ensures Below(a, k) == Below(a + map[key := v] + c, k)
    ensures key != k || keep ==> (Upper(a, k, keep) + c)[key := v] == Upper(a + map[key := v] + c, k, keep)
    ensures key == k && !keep ==> Upper(a, k, keep) + c == Upper(a + map[key := v] + c, k, keep)
  {
  }

  /** The two halves of a split that drops the pivot make up the map without the pivot. */
  lemma SplitHalves<V>(m: map<Key, V>, k: Key)
    ensures Below(m, k) + Above(m, k) == m - {k}
    ensures forall x, y :: x in Below(m, k) && y in Above(m, k) ==> x < y
  {
  }

  lemma {:induction false} MapOfConcat<V>(a: seq<Entry<V>>, b: seq<Entry<V>>)
    ensures MapOf(a + b) == MapOf(a) + MapOf(b)
  {
    if a == [] {
      assert a + b == b;
    } else {
      assert (a + b)[1..] == a[1..] + b;
      MapOfConcat(a[1..], b);
    }
  }

  /** The keys of `MapOf(s)` are exactly the keys occurring in `s`. */
  lemma {:induction false} MapOfKeys<V>(s: seq<Entry<V>>)
    ensures forall i :: 0 <= i < |s| ==> s[i].key in MapOf(s)
    ensures forall k :: k in MapOf(s) ==> exists i :: 0 <= i < |s| && s[i].key == k
  {
    if s != [] {
      MapOfKeys(s[1..]);
      forall k | k in MapOf(s) ensures exists i :: 0 <= i < |s| && s[i].key == k {
        if k != s[0].key {
          var i :| 0 <= i < |s[1..]| && s[1..][i].key == k;
          assert s[i + 1].key == k;
        }
      }
    }
  }

  /** Splitting a sorted listing around one entry. */
  lemma SortedAround<V>(a: seq<Entry<V>>, e: Entry<V>, b: seq<Entry<V>>)
    ensures StrictlySorted(a + [e] + b) <==>
      && StrictlySorted(a) && StrictlySorted(b)
      && (forall i :: 0 <= i < |a| ==> a[i].key < e.key)
      && (forall j :: 0 <= j < |b| ==> e.key < b[j].key)
  {
    var s := a + [e] + b;
    if StrictlySorted(a) && StrictlySorted(b)
      && (forall i :: 0 <= i < |a| ==> a[i].key < e.key)
      && (forall j :: 0 <= j < |b| ==> e.key < b[j].key)
    {
      forall i, j | 0 <= i < j < |s| ensures s[i].key < s[j].key {
        if j < |a| {
        } else if i < |a| && j == |a| {
        } else if i < |a| {
          assert s[j] == b[j - |a| - 1];
        } else if i == |a| {
          assert s[j] == b[j - |a| - 1];
        } else {
          assert s[i] == b[i - |a| - 1] && s[j] == b[j - |a| - 1];
        }
      }
    }
    if StrictlySorted(s) {
      forall i, j | 0 <= i < j < |a| ensures a[i].key < a[j].key {
        assert s[i] == a[i] && s[j] == a[j];
      }
      forall i | 0 <= i < |a| ensures a[i].key < e.key {
        assert s[i] == a[i] && s[|a|] == e;
      }
      forall i, j | 0 <= i < j < |b| ensures b[i].key < b[j].key {
        assert s[|a| + 1 + i] == b[i] && s[|a| + 1 + j] == b[j];
      }
      forall j | 0 <= j < |b| ensures e.key < b[j].key {
        assert s[|a|] == e && s[|a| + 1 + j] == b[j];
      }
    }
  }

  /** Two sorted listings, the first wholly below the second, concatenate to a sorted listing. */
  lemma SortedConcat<V>(s: seq<Entry<V>>, u: seq<Entry<V>>)
    requires StrictlySorted(s) && StrictlySorted(u)
    requires forall i, j :: 0 <= i < |s| && 0 <= j < |u| ==> s[i].key < u[j].key
    ensures StrictlySorted(s + u)
  {
    var su := s + u;
    forall i, j | 0 <= i < j < |su| ensures su[i].key < su[j].key {
      if j < |s| {
        assert su[i] == s[i] && su[j] == s[j];
      } else if i >= |s| {
        assert su[i] == u[i - |s|] && su[j] == u[j - |s|];
      } else {
        assert su[i] == s[i] && su[j] == u[j - |s|];
      }
    }
  }

  /** The first key of a sorted listing is the least key of the map it describes. */
  lemma HeadIsLeast<V>(s: seq<Entry<V>>, k: Key)
    requires StrictlySorted(s) && k in MapOf(s)
    ensures s != [] && s[0].key <= k
  {
    MapOfKeys(s);
  }

  /** The first key of a sorted listing does not occur again later on. */
  lemma HeadNotInTail<V>(s: seq<Entry<V>>)
    requires StrictlySorted(s) && s != []
    ensures StrictlySorted(s[1..])
    ensures s[0].key !in MapOf(s[1..])
  {
    var t := s[1..];
    MapOfKeys(t);
    forall i | 0 <= i < |t| ensures t[i].key != s[0].key {
      assert s[i + 1] == t[i];
    }
  }

  /** Dropping the head of a sorted listing drops its key from the map. */
  lemma MapOfTail<V>(s: seq<Entry<V>>)
    requires StrictlySorted(s) && s != []
    ensures StrictlySorted(s[1..])
    ensures MapOf(s[1..]) == MapOf(s) - {s[0].key}
  {
    HeadNotInTail(s);
    assert MapOf(s) == MapOf(s[1..])[s[0].key := s[0].value];
  }

  /** In a sorted listing every entry's value is what `MapOf` reports, and no key is lost. */
  lemma {:induction false} MapOfSorted<V>(s: seq<Entry<V>>)
    requires StrictlySorted(s)
    ensures |MapOf(s)| == |s|
    ensures forall i :: 0 <= i < |s| ==> s[i].key in MapOf(s) && MapOf(s)[s[i].key] == s[i].value
  {
    if s != [] {
      var t := s[1..];
      MapOfTail(s);
      MapOfSorted(t);
      HeadNotInTail(s);
      assert MapOf(s) == MapOf(t)[s[0].key := s[0].value];
      forall i | 0 < i < |s| ensures s[i].key in MapOf(s) && MapOf(s)[s[i].key] == s[i].value {
        assert s[i] == t[i - 1];
      }
    }
  }

  /** Two non-empty sorted listings of one map start with the same entry and agree on the rest. */
  lemma SameHead<V>(s1: seq<Entry<V>>, s2: seq<Entry<V>>)
    requires StrictlySorted(s1) && StrictlySorted(s2) && s1 != []
    requires MapOf(s1) == MapOf(s2)
    ensures s2 != [] && s1[0] == s2[0]
    ensures StrictlySorted(s1[1..]) && StrictlySorted(s2[1..])
    ensures MapOf(s1[1..]) == MapOf(s2[1..])
  {
    var k1 := s1[0].key;
    assert k1 in MapOf(s1);
    HeadIsLeast(s2, k1);
    var k2 := s2[0].key;
    assert k2 in MapOf(s2);
    HeadIsLeast(s1, k2);
    MapOfTail(s1);
    MapOfTail(s2);
  }

  /**
   * A sorted listing is determined by the map it describes: two sorted listings
   * of the same map are equal. So "the entries sorted by key" has one meaning.
   */
  lemma {:induction false} SortedListingUnique<V>(s1: seq<Entry<V>>, s2: seq<Entry<V>>)
    requires StrictlySorted(s1) && StrictlySorted(s2)
    requires MapOf(s1) == MapOf(s2)
    ensures s1 == s2
    decreases |s1|
  {
    if s1 != [] {
      SameHead(s1, s2);
      SortedListingUnique(s1[1..], s2[1..]);
      assert s1 == [s1[0]] + s1[1..];
      assert s2 == [s2[0]] + s2[1..];
    } else if s2 != [] {
      SameHead(s2, s1);
    }
  }
}
