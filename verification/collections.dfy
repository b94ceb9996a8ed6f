/** Queries over the in-memory collections that stand for the document store:
    filtering by a key (`find({field: value})`), deleting by a key
    (`find(...).delete()`), last-wins lookup (a dict built by comprehension),
    stable sorting by an integer key (`sort(...)`) and skip/limit paging. */
module Collections {

  import opened Common

  /** Every pair of elements has distinct keys (a unique index). */
  predicate DistinctBy<T(==,!new), K(==)>(s: seq<T>, key: T -> K)
  {
    forall i, j :: 0 <= i < j < |s| ==> key(s[i]) != key(s[j])
  }

  /** The keys present in a collection. */
  function KeySet<T(==,!new), K>(s: seq<T>, key: T -> K): set<K>
  {
    set x | x in s :: key(x)
  }

  /** The elements whose key equals `k`, in collection order. */
  function Select<T(==,!new), K(==)>(s: seq<T>, key: T -> K, k: K): (r: seq<T>)
    ensures |r| <= |s|
    ensures forall x :: x in r <==> x in s && key(x) == k
  {
    if s == [] then []
    else
      var init := Select(s[..|s| - 1], key, k);
      var last := s[|s| - 1];
      assert forall x :: x in s <==> x in s[..|s| - 1] || x == last;
      init + (if key(last) == k then [last] else [])
  }

  /** The elements whose key differs from `k`, in collection order. */
  function Reject<T(==,!new), K(==)>(s: seq<T>, key: T -> K, k: K): (r: seq<T>)
    ensures |r| <= |s|
    ensures forall x :: x in r <==> x in s && key(x) != k
  {
    if s == [] then []
    else
      var init := Reject(s[..|s| - 1], key, k);
      var last := s[|s| - 1];
      assert forall x :: x in s <==> x in s[..|s| - 1] || x == last;
      init + (if key(last) != k then [last] else [])
  }

  /** The last element whose key equals `k`: what `{key(x): x for x in s}[k]`
      holds, since a later entry overwrites an earlier one. */
  function LastBy<T(==,!new), K(==)>(s: seq<T>, key: T -> K, k: K): (r: Option<T>)
    ensures r.Some? ==> r.value in s && key(r.value) == k
    ensures r.Some? <==> LastIndexBy(s, key, k) >= 0
    ensures r.Some? ==> r.value == s[LastIndexBy(s, key, k)]
    ensures r.None? <==> k !in KeySet(s, key)
  {
    if s == [] then None
    else if key(s[|s| - 1]) == k then Some(s[|s| - 1])
    else
      assert forall x :: x in s <==> x in s[..|s| - 1] || x == s[|s| - 1];
      LastBy(s[..|s| - 1], key, k)
  }

  /** The position of the last element whose key equals `k`. */
  function LastIndexBy<T(==,!new), K(==)>(s: seq<T>, key: T -> K, k: K): (i: int)
    ensures -1 <= i < |s|
    ensures i >= 0 ==> key(s[i]) == k && forall j :: i < j < |s| ==> key(s[j]) != k
    ensures i == -1 <==> k !in KeySet(s, key)
  {
    if s == [] then -1
    else if key(s[|s| - 1]) == k then |s| - 1
    else
      assert forall x :: x in s <==> x in s[..|s| - 1] || x == s[|s| - 1];
      LastIndexBy(s[..|s| - 1], key, k)
  }

  /** The first element whose key equals `k`: what `find_one` returns. */
  function FirstBy<T(==,!new), K(==)>(s: seq<T>, key: T -> K, k: K): (r: Option<T>)
    ensures r.Some? ==> r.value in s && key(r.value) == k
    ensures r.Some? <==> IndexBy(s, key, k) >= 0
    ensures r.Some? ==> r.value == s[IndexBy(s, key, k)]
    ensures r.None? <==> k !in KeySet(s, key)
  {
    if s == [] then None
    else if key(s[0]) == k then Some(s[0])
    else
      assert forall x :: x in s <==> x == s[0] || x in s[1..];
      FirstBy(s[1..], key, k)
  }

  /** The position of the first element whose key equals `k`. */
  function IndexBy<T(==,!new), K(==)>(s: seq<T>, key: T -> K, k: K): (i: int)
    ensures -1 <= i < |s|
    ensures i >= 0 ==> key(s[i]) == k && forall j :: 0 <= j < i ==> key(s[j]) != k
    ensures i == -1 <==> k !in KeySet(s, key)
  {
    if s == [] then -1
    else if key(s[0]) == k then 0
    else
      var i := IndexBy(s[1..], key, k);
      assert forall x :: x in s <==> x == s[0] || x in s[1..];
      if i == -1 then -1 else i + 1
  }

  /** `s` is sorted by `key`, smallest first. */
  predicate SortedBy<T(==,!new)>(s: seq<T>, key: T -> int)
  {
    forall i, j :: 0 <= i < j < |s| ==> key(s[i]) <= key(s[j])
  }

  /** Places `x` after every element of `s` whose key is at most `key(x)`. */
  function Insert<T(==,!new)>(s: seq<T>, x: T, key: T -> int): (r: seq<T>)
    ensures |r| == |s| + 1
  {
    if s == [] then [x]
    else if key(x) < key(s[0]) then [x] + s
    else [s[0]] + Insert(s[1..], x, key)
  }

  /** Stable insertion sort by `key`, smallest key first. */
  function SortBy<T(==,!new)>(s: seq<T>, key: T -> int): (r: seq<T>)
    ensures |r| == |s|
  {
    if s == [] then [] else Insert(SortBy(s[..|s| - 1], key), s[|s| - 1], key)
  }

  lemma {:induction false} InsertPermutes<T(!new)>(s: seq<T>, x: T, key: T -> int)
    ensures multiset(Insert(s, x, key)) == multiset(s) + multiset{x}
  {
    if s != [] && key(x) >= key(s[0]) {
      InsertPermutes(s[1..], x, key);
      assert s == [s[0]] + s[1..];
    }
  }

  lemma {:induction false} InsertSorted<T(!new)>(s: seq<T>, x: T, key: T -> int)
    requires SortedBy(s, key)
    ensures SortedBy(Insert(s, x, key), key)
  {
    if s != [] && key(x) >= key(s[0]) {
      InsertSorted(s[1..], x, key);
      InsertPermutes(s[1..], x, key);
      var r := Insert(s[1..], x, key);
      forall y | y in r ensures key(s[0]) <= key(y) {
        assert y in multiset(r);
      }
    }
  }

  /** SortBy returns the same elements, ordered by key. */
  lemma {:induction false} SortByCorrect<T(!new)>(s: seq<T>, key: T -> int)
    ensures SortedBy(SortBy(s, key), key)
    ensures multiset(SortBy(s, key)) == multiset(s)
  {
    if s != [] {
      var init := s[..|s| - 1];
      SortByCorrect(init, key);
      InsertSorted(SortBy(init, key), s[|s| - 1], key);
      InsertPermutes(SortBy(init, key), s[|s| - 1], key);
      assert s == init + [s[|s| - 1]];
    }
  }

  /** Mongo's `.skip(skip).limit(limit)`: drop `skip` elements, then keep at
      most `limit` of the rest; a limit of 0 means no limit. */
  function Window<T(==,!new)>(s: seq<T>, skip: nat, limit: nat): (r: seq<T>)
    ensures skip >= |s| ==> r == []
    ensures skip < |s| ==> |r| == if limit == 0 || skip + limit > |s| then |s| - skip else limit
    ensures forall i :: 0 <= i < |r| ==> r[i] == s[skip + i]
  {
    if skip >= |s| then []
    else if limit == 0 || skip + limit > |s| then s[skip..]
    else s[skip..skip + limit]
  }

  /** A window of a sorted collection is sorted. */
  lemma WindowSorted<T(!new)>(s: seq<T>, skip: nat, limit: nat, key: T -> int)
    requires SortedBy(s, key)
    ensures SortedBy(Window(s, skip, limit), key)
  {
    var r := Window(s, skip, limit);
    forall i, j | 0 <= i < j < |r| ensures key(r[i]) <= key(r[j]) {
      assert r[i] == s[skip + i] && r[j] == s[skip + j];
    }
  }

  /** A window holds only elements of the collection. */
  lemma WindowWithin<T(!new)>(s: seq<T>, skip: nat, limit: nat)
    ensures forall x :: x in Window(s, skip, limit) ==> x in s
  {
    var r := Window(s, skip, limit);
    forall x | x in r ensures x in s {
      var i :| 0 <= i < |r| && r[i] == x;
      assert s[skip + i] == x;
    }
  }

  /** Selecting by a key keeps every copy of an element with that key and
      no copy of any other. */
  lemma {:induction false} SelectCounts<T(!new), K>(s: seq<T>, key: T -> K, k: K)
    ensures forall x :: multiset(Select(s, key, k))[x] == if key(x) == k then multiset(s)[x] else 0
  {
    if s != [] {
      var init := s[..|s| - 1];
      assert s == init + [s[|s| - 1]];
      SelectCounts(init, key, k);
    }
  }

  lemma {:induction false} SelectAppend<T(!new), K>(s: seq<T>, t: seq<T>, key: T -> K, k: K)
    ensures Select(s + t, key, k) == Select(s, key, k) + Select(t, key, k)
  {
    if t != [] {
      var u := t[..|t| - 1];
      SelectAppend(s, u, key, k);
      assert (s + t)[..|s + t| - 1] == s + u;
      assert t[..|t| - 1] == u;
    } else {
      assert s + t == s;
    }
  }

  lemma {:induction false} SelectAbsent<T(!new), K>(s: seq<T>, key: T -> K, k: K)
    requires k !in KeySet(s, key)
    ensures Select(s, key, k) == []
  {
    if s != [] {
      var init := s[..|s| - 1];
      assert KeySet(init, key) <= KeySet(s, key) by {
        forall y | y in KeySet(init, key) ensures y in KeySet(s, key) {
          var x :| x in init && key(x) == y;
          assert x in s;
        }
      }
      SelectAbsent(init, key, k);
      assert s[|s| - 1] in s;
    }
  }

  /** Selecting by one key commutes with deleting by another. */
  lemma {:induction false} SelectReject<T(!new), K>(s: seq<T>, key: T -> K, gone: K, k: K)
    requires k != gone
    ensures Select(Reject(s, key, gone), key, k) == Select(s, key, k)
  {
    if s != [] {
      var init := s[..|s| - 1];
      var last := s[|s| - 1];
      SelectReject(init, key, gone, k);
      var rest := if key(last) != gone then [last] else [];
      SelectAppend(Reject(init, key, gone), rest, key, k);
    }
  }

  /** Deleting by a key keeps a unique index unique. */
  lemma {:induction false} RejectDistinct<T(!new), K, L>(s: seq<T>, key: T -> K, gone: K, id: T -> L)
    requires DistinctBy(s, id)
    ensures DistinctBy(Reject(s, key, gone), id)
  {
    if s != [] {
      var init := s[..|s| - 1];
      var last := s[|s| - 1];
      assert DistinctBy(init, id);
      RejectDistinct(init, key, gone, id);
      var r := Reject(init, key, gone);
      forall x | x in r ensures id(x) != id(last) {
        var i :| 0 <= i < |init| && init[i] == x;
        assert s[i] == x;
      }
    }
  }

  /** Under a unique index, two elements with the same key are the same. */
  lemma DistinctKeyedEqual<T(!new), K>(s: seq<T>, key: T -> K, x: T, y: T)
    requires DistinctBy(s, key) && x in s && y in s && key(x) == key(y)
    ensures x == y
  {
    var i :| 0 <= i < |s| && s[i] == x;
    var j :| 0 <= j < |s| && s[j] == y;
    assert !(i < j) && !(j < i);
  }

  /** Under a unique index, looking an element up by its key finds it. */
  lemma FirstByFinds<T(!new), K>(s: seq<T>, key: T -> K, x: T)
    requires DistinctBy(s, key) && x in s
    ensures FirstBy(s, key, key(x)) == Some(x)
    ensures IndexBy(s, key, key(x)) >= 0 && s[IndexBy(s, key, key(x))] == x
    ensures forall k :: 0 <= k < |s| && key(s[k]) == key(x) ==> k == IndexBy(s, key, key(x))
  {
    assert key(x) in KeySet(s, key);
    DistinctKeyedEqual(s, key, FirstBy(s, key, key(x)).value, x);
    var i := IndexBy(s, key, key(x));
    DistinctKeyedEqual(s, key, s[i], x);
    forall k | 0 <= k < |s| && key(s[k]) == key(x) ensures k == i {
      assert !(k < i) && !(i < k);
    }
  }

  /** Appending an element with a new key keeps the index unique. */
  lemma AppendDistinct<T(!new), K>(s: seq<T>, key: T -> K, x: T)
    requires DistinctBy(s, key) && key(x) !in KeySet(s, key)
    ensures DistinctBy(s + [x], key)
    ensures KeySet(s + [x], key) == KeySet(s, key) + {key(x)}
  {
    var r := s + [x];
    forall i, j | 0 <= i < j < |r| ensures key(r[i]) != key(r[j]) {
      if j == |s| {
        assert r[i] in s;
      }
    }
    forall k | k in KeySet(r, key) ensures k in KeySet(s, key) + {key(x)} {
      var y :| y in r && key(y) == k;
      if y != x {
        assert y in s;
      }
    }
  }

  /** Replacing an element by one with the same key keeps the keys. */
  lemma ReplaceDistinct<T(!new), K>(s: seq<T>, key: T -> K, i: nat, y: T)
    requires i < |s| && DistinctBy(s, key) && key(y) == key(s[i])
    ensures DistinctBy(s[i := y], key)
    ensures KeySet(s[i := y], key) == KeySet(s, key)
  {
    var r := s[i := y];
    forall k | k in KeySet(s, key) ensures k in KeySet(r, key) {
      var z :| z in s && key(z) == k;
      var j :| 0 <= j < |s| && s[j] == z;
      assert key(r[j]) == k;
    }
    forall k | k in KeySet(r, key) ensures k in KeySet(s, key) {
      var z :| z in r && key(z) == k;
      var j :| 0 <= j < |r| && r[j] == z;
      assert key(s[j]) == k;
    }
  }
  /** A page of a sorted collection: sorted, drawn from the collection, and
      the whole collection when nothing is skipped and there is no limit. */
  lemma SortedPage<T(!new)>(s: seq<T>, key: T -> int, skip: nat, limit: nat)
    ensures var r := Window(SortBy(s, key), skip, limit);
            && SortedBy(r, key)
            && (forall x :: x in r ==> x in s)
            && (skip == 0 && limit == 0 ==> multiset(r) == multiset(s))
  {
    var sorted := SortBy(s, key);
    SortByCorrect(s, key);
    WindowSorted(sorted, skip, limit, key);
    WindowWithin(sorted, skip, limit);
    forall x | x in sorted ensures x in s {
      assert x in multiset(sorted);
    }
    if skip == 0 && limit == 0 {
      assert sorted[0..] == sorted;
    }
  }
  /** Deleting by a unique key that is present removes exactly one element,
      and exactly that key. */
  lemma {:induction false} RejectPresent<T(!new), K>(s: seq<T>, key: T -> K, k: K)
    requires DistinctBy(s, key) && k in KeySet(s, key)
    ensures |Reject(s, key, k)| == |s| - 1
    ensures KeySet(Reject(s, key, k), key) == KeySet(s, key) - {k}
  {
    var init := s[..|s| - 1];
    var last := s[|s| - 1];
    assert DistinctBy(init, key);
    if key(last) == k {
      forall x | x in init ensures key(x) != k {
        var i :| 0 <= i < |init| && init[i] == x;
        assert s[i] == x;
      }
      RejectAll(init, key, k);
    } else {
      var x :| x in s && key(x) == k;
      assert x in init;
      RejectPresent(init, key, k);
    }
    var r := Reject(s, key, k);
    forall y | y in KeySet(s, key) - {k} ensures y in KeySet(r, key) {
      var x :| x in s && key(x) == y;
      assert x in r;
    }
  }

  /** Deleting a key no element has removes nothing. */
  lemma {:induction false} RejectAll<T(!new), K>(s: seq<T>, key: T -> K, k: K)
    requires forall x :: x in s ==> key(x) != k
    ensures Reject(s, key, k) == s
  {
    if s != [] {
      var init := s[..|s| - 1];
      var last := s[|s| - 1];
      assert s == init + [last];
      assert key(last) != k by {
        assert last in s;
      }
      forall x | x in init ensures key(x) != k {
        assert x in s;
      }
      RejectAll(init, key, k);
      assert Reject(s, key, k) == Reject(init, key, k) + [last];
    }
  }
  /** The keys of a collection with one more element. */
  lemma KeySetAppend<T(!new), K>(s: seq<T>, key: T -> K, x: T)
    ensures KeySet(s + [x], key) == KeySet(s, key) + {key(x)}
  {
    forall k | k in KeySet(s + [x], key) ensures k in KeySet(s, key) + {key(x)} {
      var y :| y in s + [x] && key(y) == k;
      if y != x {
        assert y in s;
      }
    }
    assert x in s + [x];
  }
  /** `{key(x): x for x in s}`: each key present maps to the last element
      with that key, since a later entry overwrites an earlier one. */
  function KeyMap<T(==,!new), K(==)>(s: seq<T>, key: T -> K): (m: map<K, T>)
    ensures m.Keys == KeySet(s, key)
    ensures forall k :: k in m ==> LastBy(s, key, k) == Some(m[k])
  {
    if s == [] then map[]
    else
      var init := s[..|s| - 1];
      var last := s[|s| - 1];
      assert s == init + [last];
      KeySetAppend(init, key, last);
      KeyMap(init, key)[key(last) := last]
  }
}
