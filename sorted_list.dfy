/**
 * The ordered key/value list of the transform tree: an array of `[key, value]`
 * pairs kept sorted by key, searched by bisection.  Keys are modelled as `int`
 * (the source compares them with `<` and `===`).
 */
module SortedLists {
  import opened Base

  /** The keys of `s` are strictly increasing. */
  ghost predicate Increasing<V>(s: seq<(int, V)>)
  {
    forall i, j :: 0 <= i < j < |s| ==> s[i].0 < s[j].0
  }

  /** The dictionary a list of pairs stands for; a later pair wins over an earlier one. */
  ghost function AsMap<V>(s: seq<(int, V)>): map<int, V>
  {
    if s == [] then map[] else AsMap(s[..|s| - 1])[s[|s| - 1].0 := s[|s| - 1].1]
  }

  /** The number of pairs whose key is less than `key`. */
  ghost function CountBelow<V>(s: seq<(int, V)>, key: int): (n: nat)
    ensures n <= |s|
  {
    if s == [] then 0
    else CountBelow(s[..|s| - 1], key) + (if s[|s| - 1].0 < key then 1 else 0)
  }

  /** `p` splits `s` into the keys below `key` and the keys above it. */
  ghost predicate SplitsAt<V>(s: seq<(int, V)>, key: int, p: int)
  {
    && 0 <= p <= |s|
    && (forall j :: 0 <= j < p ==> s[j].0 < key)
    && (forall j :: p <= j < |s| ==> key < s[j].0)
  }

  /** JavaScript's `~` on a 32-bit integer. */
  function BitNot(x: int): int
  {
    -x - 1
  }

  lemma {:induction false} AsMapKeys<V>(s: seq<(int, V)>, k: int)
    ensures k in AsMap(s) <==> exists i :: 0 <= i < |s| && s[i].0 == k
  {
    if s != [] {
      var pre := s[..|s| - 1];
      AsMapKeys(pre, k);
      if k in AsMap(pre) {
        var i :| 0 <= i < |pre| && pre[i].0 == k;
        assert s[i].0 == k;
      }
      if exists i :: 0 <= i < |s| && s[i].0 == k {
        var i :| 0 <= i < |s| && s[i].0 == k;
        if i < |pre| {
          assert pre[i].0 == k;
        }
      }
    }
  }

  /** In a sorted list every pair is the dictionary's entry for its key. */
  lemma {:induction false} AsMapValue<V>(s: seq<(int, V)>, i: int)
    requires Increasing(s) && 0 <= i < |s|
    ensures s[i].0 in AsMap(s) && AsMap(s)[s[i].0] == s[i].1
  {
    if i < |s| - 1 {
      var pre := s[..|s| - 1];
      assert pre[i] == s[i];
      AsMapValue(pre, i);
    }
  }

  /** In a sorted list no key repeats, so the list has as many pairs as the dictionary has keys. */
  lemma {:induction false} AsMapSize<V>(s: seq<(int, V)>)
    requires Increasing(s)
    ensures |AsMap(s)| == |s|
  {
    if s != [] {
      var pre := s[..|s| - 1];
      AsMapSize(pre);
      AsMapKeys(pre, s[|s| - 1].0);
      assert forall i :: 0 <= i < |pre| ==> pre[i].0 < s[|s| - 1].0;
    }
  }

  /** A sorted list stands for `m` when its pairs are exactly the entries of `m`. */
  lemma AsMapIs<V>(s: seq<(int, V)>, m: map<int, V>)
    requires Increasing(s)
    requires forall i :: 0 <= i < |s| ==> s[i].0 in m && m[s[i].0] == s[i].1
    requires forall k :: k in m ==> exists i :: 0 <= i < |s| && s[i].0 == k
    ensures AsMap(s) == m
  {
    forall k | k in AsMap(s)
      ensures k in m && AsMap(s)[k] == m[k]
    {
      AsMapKeys(s, k);
      var i :| 0 <= i < |s| && s[i].0 == k;
      AsMapValue(s, i);
    }
    forall k | k in m
      ensures k in AsMap(s)
    {
      AsMapKeys(s, k);
    }
  }

  /** The entries of a sorted list, as dictionary facts. */
  lemma AsMapEntries<V>(s: seq<(int, V)>)
    requires Increasing(s)
    ensures forall i :: 0 <= i < |s| ==> s[i].0 in AsMap(s) && AsMap(s)[s[i].0] == s[i].1
    ensures forall k :: k in AsMap(s) ==> exists i :: 0 <= i < |s| && s[i].0 == k
  {
    forall i | 0 <= i < |s|
      ensures s[i].0 in AsMap(s) && AsMap(s)[s[i].0] == s[i].1
    {
      AsMapValue(s, i);
    }
    forall k | k in AsMap(s)
      ensures exists i :: 0 <= i < |s| && s[i].0 == k
    {
      AsMapKeys(s, k);
    }
  }

  /** Every key below the split point is smaller, every other key is not: the split point counts the smaller keys. */
  lemma {:induction false} CountBelowAt<V>(s: seq<(int, V)>, key: int, p: int)
    requires 0 <= p <= |s|
    requires forall j :: 0 <= j < p ==> s[j].0 < key
    requires forall j :: p <= j < |s| ==> key <= s[j].0
    ensures CountBelow(s, key) == p
  {
    if s != [] {
      var pre := s[..|s| - 1];
      if p == |s| {
        CountBelowAt(pre, key, p - 1);
      } else {
        CountBelowAt(pre, key, p);
      }
    }
  }

  /** Overwriting the value of an existing key keeps the list sorted and updates only that key. */
  lemma ReplaceEntry<V>(s: seq<(int, V)>, p: int, v: V)
    requires Increasing(s) && 0 <= p < |s|
    ensures Increasing(s[p := (s[p].0, v)])
    ensures AsMap(s[p := (s[p].0, v)]) == AsMap(s)[s[p].0 := v]
  {
    var t := s[p := (s[p].0, v)];
    var m := AsMap(s)[s[p].0 := v];
    AsMapEntries(s);
    forall i | 0 <= i < |t|
      ensures t[i].0 in m && m[t[i].0] == t[i].1
    {
      if i != p {
        assert s[i].0 != s[p].0 by {
          if i < p { assert s[i].0 < s[p].0; } else { assert s[p].0 < s[i].0; }
        }
      }
    }
    forall k | k in m
      ensures exists i :: 0 <= i < |t| && t[i].0 == k
    {
      if k != s[p].0 {
        var i :| 0 <= i < |s| && s[i].0 == k;
        assert t[i].0 == k;
      } else {
        assert t[p].0 == k;
      }
    }
    AsMapIs(t, m);
  }

  /** Inserting a new key at its split point keeps the list sorted. */
  lemma InsertIncreasing<V>(s: seq<(int, V)>, p: int, key: int, v: V)
    requires Increasing(s) && SplitsAt(s, key, p)
    ensures Increasing(s[..p] + [(key, v)] + s[p..])
  {
    var t := s[..p] + [(key, v)] + s[p..];
    forall i, j | 0 <= i < j < |t|
      ensures t[i].0 < t[j].0
    {
      if j < p {
        assert t[i] == s[i] && t[j] == s[j];
      } else if j == p {
        assert t[i] == s[i];
      } else if i > p {
        assert t[i] == s[i - 1] && t[j] == s[j - 1];
      } else if i == p {
        assert t[j] == s[j - 1];
      } else {
        assert t[i] == s[i] && t[j] == s[j - 1];
      }
    }
  }

  /** `t` is `s` with `e` inserted at position `p`. */
  ghost predicate InsertedAt<V>(s: seq<(int, V)>, p: int, e: (int, V), t: seq<(int, V)>)
  {
    && 0 <= p <= |s|
    && |t| == |s| + 1
    && (forall i :: 0 <= i < p ==> t[i] == s[i])
    && t[p] == e
    && (forall i :: p < i < |t| ==> t[i] == s[i - 1])
  }

  /** After the insertion every pair is an entry of the updated dictionary. */
  lemma InsertEntries<V>(s: seq<(int, V)>, p: int, key: int, v: V, t: seq<(int, V)>)
    requires Increasing(s) && SplitsAt(s, key, p) && InsertedAt(s, p, (key, v), t)
    ensures forall i :: 0 <= i < |t| ==> t[i].0 in AsMap(s)[key := v] && AsMap(s)[key := v][t[i].0] == t[i].1
  {
    var m := AsMap(s)[key := v];
    AsMapEntries(s);
    forall i | 0 <= i < |t|
      ensures t[i].0 in m && m[t[i].0] == t[i].1
    {
      if i < p {
        assert t[i] == s[i];
      } else if p < i {
        assert t[i] == s[i - 1];
      }
    }
  }

  /** After the insertion every old key still has a pair. */
  lemma InsertKeys<V>(s: seq<(int, V)>, p: int, key: int, v: V, t: seq<(int, V)>)
    requires Increasing(s) && SplitsAt(s, key, p) && InsertedAt(s, p, (key, v), t)
    ensures forall k :: k in AsMap(s) ==> exists i :: 0 <= i < |t| && t[i].0 == k
  {
    AsMapEntries(s);
    forall k | k in AsMap(s)
      ensures exists i :: 0 <= i < |t| && t[i].0 == k
    {
      var i :| 0 <= i < |s| && s[i].0 == k;
      if i < p {
        assert t[i].0 == k;
      } else {
        assert t[i + 1].0 == k;
      }
    }
  }

  /** Inserting a new key at its split point keeps the list sorted and adds exactly that key. */
  lemma InsertEntry<V>(s: seq<(int, V)>, p: int, key: int, v: V)
    requires Increasing(s) && SplitsAt(s, key, p)
    ensures Increasing(s[..p] + [(key, v)] + s[p..])
    ensures AsMap(s[..p] + [(key, v)] + s[p..]) == AsMap(s)[key := v]
  {
    var t := s[..p] + [(key, v)] + s[p..];
    assert InsertedAt(s, p, (key, v), t);
    InsertIncreasing(s, p, key, v);
    InsertEntries(s, p, key, v, t);
    InsertKeys(s, p, key, v, t);
    AsMapIs(t, AsMap(s)[key := v]);
  }

  /** `t` is `s` with the pair at position `d` removed. */
  ghost predicate RemovedAt<V>(s: seq<(int, V)>, d: int, t: seq<(int, V)>)
  {
    && 0 <= d < |s|
    && |t| == |s| - 1
    && (forall i :: 0 <= i < d ==> t[i] == s[i])
    && (forall i :: d <= i < |t| ==> t[i] == s[i + 1])
  }

  /** Removing one pair of a sorted list keeps it sorted and removes exactly that pair's key. */
  lemma RemoveEntry<V>(s: seq<(int, V)>, d: int, t: seq<(int, V)>)
    requires Increasing(s) && RemovedAt(s, d, t)
    ensures Increasing(t)
    ensures AsMap(t) == AsMap(s) - {s[d].0}
  {
    var m := AsMap(s) - {s[d].0};
    forall i, j | 0 <= i < j < |t|
      ensures t[i].0 < t[j].0
    {
      var i' := if i < d then i else i + 1;
      var j' := if j < d then j else j + 1;
      assert t[i] == s[i'] && t[j] == s[j'];
    }
    AsMapEntries(s);
    forall i | 0 <= i < |t|
      ensures t[i].0 in m && m[t[i].0] == t[i].1
    {
      var i' := if i < d then i else i + 1;
      assert t[i] == s[i'] && s[i'].0 != s[d].0;
    }
    forall k | k in m
      ensures exists i :: 0 <= i < |t| && t[i].0 == k
    {
      var i :| 0 <= i < |s| && s[i].0 == k;
      if i < d {
        assert t[i].0 == k;
      } else {
        assert t[i - 1].0 == k;
      }
    }
    AsMapIs(t, m);
  }

  /** Dropping the first pair of a sorted list removes exactly the smallest key. */
  lemma DropFirst<V>(s: seq<(int, V)>)
    requires Increasing(s) && s != []
    ensures Increasing(s[1..])
    ensures AsMap(s[1..]) == AsMap(s) - {s[0].0}
  {
    assert RemovedAt(s, 0, s[1..]);
    RemoveEntry(s, 0, s[1..]);
  }

  /** Dropping the last pair of a sorted list removes exactly the largest key. */
  lemma DropLast<V>(s: seq<(int, V)>)
    requires Increasing(s) && s != []
    ensures Increasing(s[..|s| - 1])
    ensures AsMap(s[..|s| - 1]) == AsMap(s) - {s[|s| - 1].0}
  {
    assert RemovedAt(s, |s| - 1, s[..|s| - 1]);
    RemoveEntry(s, |s| - 1, s[..|s| - 1]);
  }

  class SortedList<V> {
    /** The `[key, value]` pairs, in key order. */
    var list: seq<(int, V)>

    ghost predicate Valid()
      reads this
    {
      Increasing(list)
    }

    constructor ()
      ensures Valid() && list == []
    {
      list := [];
    }

    /** The number of entries: the number of distinct keys stored. */
    function Size(): (n: nat)
      reads this
      requires Valid()
      ensures n == |AsMap(list)|
    {
      AsMapSize(list);
      |list|
    }

    method Clear()
      modifies this
      ensures Valid() && list == []
    {
      list := [];
    }

    /** Entry `index` is the entry with exactly `index` smaller keys; `None` out of range. */
    function At(index: int): (r: Option<(int, V)>)
      reads this
      requires Valid()
      ensures r.Some? <==> 0 <= index < |list|
      ensures r.Some? ==> r.value.0 in AsMap(list) && AsMap(list)[r.value.0] == r.value.1
      ensures r.Some? ==> CountBelow(list, r.value.0) == index
    {
      if 0 <= index < |list| then
        AsMapValue(list, index);
        CountBelowAt(list, list[index].0, index);
        Some(list[index])
      else
        None
    }

    /** The entry with the smallest key, `None` when empty. */
    function MinEntry(): (r: Option<(int, V)>)
      reads this
      requires Valid()
      ensures r.None? <==> |AsMap(list)| == 0
      ensures r.Some? ==> r.value.0 in AsMap(list) && AsMap(list)[r.value.0] == r.value.1
      ensures r.Some? ==> forall k :: k in AsMap(list) ==> r.value.0 <= k
    {
      AsMapSize(list);
      AsMapEntries(list);
      if |list| == 0 then None else Some(list[0])
    }

    /** The entry with the largest key, `None` when empty. */
    function MaxEntry(): (r: Option<(int, V)>)
      reads this
      requires Valid()
      ensures r.None? <==> |AsMap(list)| == 0
      ensures r.Some? ==> r.value.0 in AsMap(list) && AsMap(list)[r.value.0] == r.value.1
      ensures r.Some? ==> forall k :: k in AsMap(list) ==> k <= r.value.0
    {
      AsMapSize(list);
      AsMapEntries(list);
      if |list| == 0 then None else Some(list[|list| - 1])
    }

    /** The smallest key, `None` when empty. */
    function MinKey(): (r: Option<int>)
      reads this
      requires Valid()
      ensures r.None? <==> |AsMap(list)| == 0
      ensures r.Some? ==> r.value in AsMap(list) && forall k :: k in AsMap(list) ==> r.value <= k
    {
      AsMapSize(list);
      AsMapEntries(list);
      if |list| == 0 then None else Some(list[0].0)
    }

    /** The largest key, `None` when empty. */
    function MaxKey(): (r: Option<int>)
      reads this
      requires Valid()
      ensures r.None? <==> |AsMap(list)| == 0
      ensures r.Some? ==> r.value in AsMap(list) && forall k :: k in AsMap(list) ==> k <= r.value
    {
      AsMapSize(list);
      AsMapEntries(list);
      if |list| == 0 then None else Some(list[|list| - 1].0)
    }

    /**
     * The index of `key`, or `~p` where `p` is the number of smaller keys
     * (the place where `key` would be inserted).
     */
    method BinarySearch(key: int) returns (r: int)
      requires Valid()
      ensures 0 <= r ==> r < |list| && list[r].0 == key
      ensures r < 0 ==> SplitsAt(list, key, BitNot(r)) && key !in AsMap(list)
      ensures r < 0 ==> BitNot(r) == CountBelow(list, key)
      ensures list == [] ==> r == -1
    {
      if |list| == 0 {
        return -1;
      }
      var left := 0;
      var right := |list| - 1;
      while left <= right
        invariant 0 <= left <= right + 1 <= |list|
        invariant forall j :: 0 <= j < left ==> list[j].0 < key
        invariant forall j :: right < j < |list| ==> key < list[j].0
        decreases right - left
      {
        var mid := (left + right) / 2;
        var midKey := list[mid].0;
        if midKey == key {
          return mid;
        } else if key < midKey {
          right := mid - 1;
        } else {
          left := mid + 1;
        }
      }
      r := BitNot(left);
      CountBelowAt(list, key, left);
      AsMapKeys(list, key);
    }

    /** Stores `value` under `key`: overwrites the entry in place, or inserts a new one at its sorted position. */
    method Set(key: int, value: V)
      requires Valid()
      modifies this
      ensures Valid()
      ensures AsMap(list) == old(AsMap(list))[key := value]
      ensures key in old(AsMap(list)) ==>
        && CountBelow(old(list), key) < |old(list)|
        && list == old(list)[CountBelow(old(list), key) := (key, value)]
      ensures key !in old(AsMap(list)) ==>
        list == old(list)[..CountBelow(old(list), key)] + [(key, value)] + old(list)[CountBelow(old(list), key)..]
    {
      var index := BinarySearch(key);
      if index >= 0 {
        CountBelowAt(list, key, index);
        ReplaceEntry(list, index, value);
        AsMapKeys(list, key);
        list := list[index := (key, value)];
      } else {
        var greaterThanIndex := BitNot(index);
        var newEntry := (key, value);
        InsertEntry(list, greaterThanIndex, key, value);
        CountBelowAt(list, key, greaterThanIndex);
        if greaterThanIndex >= |list| {
          list := list + [newEntry];
        } else {
          list := list[..greaterThanIndex] + [newEntry] + list[greaterThanIndex..];
        }
        assert list == old(list)[..greaterThanIndex] + [newEntry] + old(list)[greaterThanIndex..];
      }
    }

    /** Removes and returns the entry with the smallest key; `None` and no change when empty. */
    method Shift() returns (r: Option<(int, V)>)
      requires Valid()
      modifies this
      ensures Valid()
      ensures old(list) == [] ==> r == None && list == []
      ensures old(list) != [] ==> r == Some(old(list)[0]) && list == old(list)[1..]
      ensures r.Some? ==> AsMap(list) == old(AsMap(list)) - {r.value.0}
    {
      if |list| == 0 {
        return None;
      }
      DropFirst(list);
      r := Some(list[0]);
      list := list[1..];
    }

    /** Removes and returns the entry with the largest key; `None` and no change when empty. */
    method Pop() returns (r: Option<(int, V)>)
      requires Valid()
      modifies this
      ensures Valid()
      ensures old(list) == [] ==> r == None && list == []
      ensures old(list) != [] ==> r == Some(old(list)[|old(list)| - 1]) && list == old(list)[..|old(list)| - 1]
      ensures r.Some? ==> AsMap(list) == old(AsMap(list)) - {r.value.0}
    {
      if |list| == 0 {
        return None;
      }
      DropLast(list);
      r := Some(list[|list| - 1]);
      list := list[..|list| - 1];
    }
  }
}
