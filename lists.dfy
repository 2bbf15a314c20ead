/** Sequence operations that the client code applies to its in-memory lists
    (`filter`, `map` that replaces by id) and the ordering the store applies
    when it lists a table (`order(..., { ascending: false })`). */
module Lists {

  /** `s.filter(p)`. */
  function Filter<T(!new)>(s: seq<T>, p: T -> bool): (r: seq<T>)
    ensures |r| <= |s|
    ensures forall x :: x in r <==> x in s && p(x)
    ensures forall x :: multiset(r)[x] == if p(x) then multiset(s)[x] else 0
  {
    if s == [] then []
    else
      assert s == [s[0]] + s[1..];
      if p(s[0]) then [s[0]] + Filter(s[1..], p)
      else Filter(s[1..], p)
  }

  /** Filtering a concatenation filters each part. */
  lemma {:induction false} FilterAppend<T(!new)>(a: seq<T>, b: seq<T>, p: T -> bool)
    ensures Filter(a + b, p) == Filter(a, p) + Filter(b, p)
    decreases |a|
  {
    if a == [] {
      assert a + b == b;
    } else {
      assert (a + b)[1..] == a[1..] + b;
      FilterAppend(a[1..], b, p);
    }
  }

  /** The positions of `s` whose element passes `p`. */
  function PassingIndices<T>(s: seq<T>, p: T -> bool): set<int> {
    set i | 0 <= i < |s| && p(s[i])
  }

  /** One more element adds its own position to the passing ones, if it passes. */
  lemma PassingIndicesSnoc<T>(s: seq<T>, p: T -> bool)
    requires s != []
    ensures |PassingIndices(s, p)| == |PassingIndices(s[..|s| - 1], p)| + if p(s[|s| - 1]) then 1 else 0
  {
    var n := |s| - 1;
    var front := s[..n];
    var all, before := PassingIndices(s, p), PassingIndices(front, p);
    var last: set<int> := if p(s[n]) then {n} else {};
    forall i ensures i in all <==> i in before || i in last {
      if 0 <= i < n {
        assert s[i] == front[i];
      }
    }
    assert all == before + last;
    assert before !! last;
  }

  /** One more element adds one to the filter's length, if it passes. */
  lemma FilterSnoc<T(!new)>(s: seq<T>, p: T -> bool)
    requires s != []
    ensures |Filter(s, p)| == |Filter(s[..|s| - 1], p)| + if p(s[|s| - 1]) then 1 else 0
  {
    var n := |s| - 1;
    assert s == s[..n] + [s[n]];
    FilterAppend(s[..n], [s[n]], p);
    assert [s[n]][1..] == [];
  }

  /** A filter is as long as the number of positions whose element passes. */
  lemma {:induction false} FilterCountsIndices<T(!new)>(s: seq<T>, p: T -> bool)
    ensures |Filter(s, p)| == |PassingIndices(s, p)|
    decreases |s|
  {
    if s == [] {
      assert PassingIndices(s, p) == {};
    } else {
      FilterCountsIndices(s[..|s| - 1], p);
      PassingIndicesSnoc(s, p);
      FilterSnoc(s, p);
    }
  }

  /** `r` is `s` with some elements left out, the rest in their original order. */
  predicate IsSubsequence<T(==)>(r: seq<T>, s: seq<T>)
    decreases |s|
  {
    r == [] || (s != [] && ((r[0] == s[0] && IsSubsequence(r[1..], s[1..])) || IsSubsequence(r, s[1..])))
  }

  /** A filter keeps the surviving elements in order. */
  lemma {:induction false} FilterIsSubsequence<T(!new)>(s: seq<T>, p: T -> bool)
    ensures IsSubsequence(Filter(s, p), s)
    decreases |s|
  {
    if s != [] {
      FilterIsSubsequence(s[1..], p);
      if p(s[0]) {
        assert Filter(s, p)[1..] == Filter(s[1..], p);
      }
    }
  }

  /** A filter whose predicate holds everywhere keeps the whole list. */
  lemma {:induction false} FilterKeepsAll<T(!new)>(s: seq<T>, p: T -> bool)
    requires forall x :: x in s ==> p(x)
    ensures Filter(s, p) == s
    decreases |s|
  {
    if s != [] {
      FilterKeepsAll(s[1..], p);
    }
  }

  /** A filter whose predicate holds nowhere leaves nothing. */
  lemma {:induction false} FilterDropsAll<T(!new)>(s: seq<T>, p: T -> bool)
    requires forall x :: x in s ==> !p(x)
    ensures Filter(s, p) == []
    decreases |s|
  {
    if s != [] {
      FilterDropsAll(s[1..], p);
    }
  }

  /** Every element passes exactly one of `p` and its negation, so the two
      filters together are as long as the list. */
  lemma {:induction false} FilterPartition<T(!new)>(s: seq<T>, p: T -> bool, q: T -> bool)
    requires forall x :: q(x) == !p(x)
    ensures |Filter(s, p)| + |Filter(s, q)| == |s|
    decreases |s|
  {
    if s != [] {
      FilterPartition(s[1..], p, q);
    }
  }

  /** `s.map(x => idOf(x) === id ? y : x)`. */
  function ReplaceById<T>(s: seq<T>, idOf: T -> string, id: string, y: T): (r: seq<T>)
    ensures |r| == |s|
    ensures forall i :: 0 <= i < |s| && idOf(s[i]) != id ==> r[i] == s[i]
    ensures forall i :: 0 <= i < |s| && idOf(s[i]) == id ==> r[i] == y
  {
    seq(|s|, i requires 0 <= i < |s| => if idOf(s[i]) == id then y else s[i])
  }

  /** Replacing an id no entry carries leaves the list as it is. */
  lemma ReplaceAbsentId<T>(s: seq<T>, idOf: T -> string, id: string, y: T)
    requires forall x :: x in s ==> idOf(x) != id
    ensures ReplaceById(s, idOf, id, y) == s
  {
  }

  /** Replacing by a row that keeps the id is idempotent. */
  lemma ReplaceIdempotent<T>(s: seq<T>, idOf: T -> string, id: string, y: T)
    requires idOf(y) == id
    ensures ReplaceById(ReplaceById(s, idOf, id, y), idOf, id, y) == ReplaceById(s, idOf, id, y)
  {
  }

  /** `s.filter(x => idOf(x) !== id)`. */
  function RemoveById<T(!new)>(s: seq<T>, idOf: T -> string, id: string): (r: seq<T>)
    ensures forall x :: x in r <==> x in s && idOf(x) != id
    ensures IsSubsequence(r, s)
  {
    FilterIsSubsequence(s, x => idOf(x) != id);
    Filter(s, x => idOf(x) != id)
  }

  /** Newest first: keys never increase along the list. */
  ghost predicate SortedDesc<T>(s: seq<T>, key: T -> int) {
    forall i, j :: 0 <= i < j < |s| ==> key(s[i]) >= key(s[j])
  }

  /** Where a new element goes in a newest-first list: before the first
      element whose key is smaller than its own. */
  function InsertPos<T>(s: seq<T>, x: T, key: T -> int): (p: nat)
    ensures p <= |s|
    ensures forall i :: 0 <= i < p ==> key(s[i]) >= key(x)
    ensures p < |s| ==> key(s[p]) < key(x)
  {
    if s == [] then 0
    else if key(s[0]) >= key(x) then 1 + InsertPos(s[1..], x, key)
    else 0
  }

  /** Inserts `x` at `InsertPos`. */
  function InsertDesc<T>(s: seq<T>, x: T, key: T -> int): (r: seq<T>)
    ensures |r| == |s| + 1
    ensures multiset(r) == multiset(s) + multiset{x}
  {
    var p := InsertPos(s, x, key);
    assert s == s[..p] + s[p..];
    s[..p] + [x] + s[p..]
  }

  /** Inserting into a newest-first list keeps it newest first. */
  lemma InsertDescSorted<T>(s: seq<T>, x: T, key: T -> int)
    requires SortedDesc(s, key)
    ensures SortedDesc(InsertDesc(s, x, key), key)
  {
    var p := InsertPos(s, x, key);
    var r := InsertDesc(s, x, key);
    forall i, j | 0 <= i < j < |r| ensures key(r[i]) >= key(r[j]) {
      if j < p {
        assert r[i] == s[i] && r[j] == s[j];
      } else if j == p {
        assert r[i] == s[i] && r[j] == x;
      } else if i < p {
        assert r[i] == s[i] && r[j] == s[j - 1];
      } else if i == p {
        assert r[i] == x && r[j] == s[j - 1];
        assert key(s[p]) < key(x);
        assert p == j - 1 || key(s[p]) >= key(s[j - 1]);
      } else {
        assert r[i] == s[i - 1] && r[j] == s[j - 1];
      }
    }
  }

  /** `rows` lists the rows of `m` under the keys `ks`, in the order of `keys`:
      each key of `ks` exactly once, and no other key. */
  ghost predicate ListsKeys<T>(rows: seq<T>, m: map<string, T>, keys: seq<string>, ks: set<string>) {
    && |keys| == |rows|
    && (forall i, j :: 0 <= i < j < |keys| ==> keys[i] != keys[j])
    && (forall i :: 0 <= i < |keys| ==> keys[i] in ks && keys[i] in m && rows[i] == m[keys[i]])
    && (forall k :: k in ks ==> k in keys)
  }

  /** Lists the rows of a table once each, ordered by `key` descending: the
      store's `select('*').order(key, { ascending: false })`. */
  ghost predicate ListsTableDesc<T>(rows: seq<T>, m: map<string, T>, key: T -> int) {
    && |rows| == |m|
    && (exists keys :: ListsKeys(rows, m, keys, m.Keys))
    && SortedDesc(rows, key)
  }

  /** A listing holds every row of the table and nothing else. */
  lemma ListedRowsCoverTable<T>(rows: seq<T>, m: map<string, T>, key: T -> int)
    requires ListsTableDesc(rows, m, key)
    ensures forall k :: k in m ==> m[k] in rows
    ensures forall i :: 0 <= i < |rows| ==> rows[i] in m.Values
  {
    var keys :| ListsKeys(rows, m, keys, m.Keys);
    forall k | k in m ensures m[k] in rows {
      var i :| 0 <= i < |keys| && keys[i] == k;
      assert rows[i] == m[k];
    }
    forall i | 0 <= i < |rows| ensures rows[i] in m.Values {
      assert m[keys[i]] == rows[i];
    }
  }

  /** A listing cannot show a row twice when only one key holds it, nor drop
      a row two keys hold: `[2, 2, 1]` does not list `{a: 1, b: 1, c: 2}`. */
  lemma RepeatedRowIsNoListing()
    ensures !ListsTableDesc([2, 2, 1], map["a" := 1, "b" := 1, "c" := 2], (x: int) => x)
  {
    var rows, m := [2, 2, 1], map["a" := 1, "b" := 1, "c" := 2];
    assert m.Keys == {"a", "b", "c"};
    assert forall k :: k in m && m[k] == 2 ==> k == "c";
    assert rows[0] == 2 && rows[1] == 2;
    assert forall keys :: ListsKeys(rows, m, keys, m.Keys) ==> keys[0] == "c" && keys[1] == "c";
  }

  /** Every row of the table is stored under its own id: the primary key. */
  ghost predicate KeyedById<T>(m: map<string, T>, idOf: T -> string) {
    forall k :: k in m ==> idOf(m[k]) == k
  }

  /** When every row is stored under its own id, a listing shows no id twice. */
  lemma ListedIdsDistinct<T>(rows: seq<T>, m: map<string, T>, key: T -> int, idOf: T -> string)
    requires ListsTableDesc(rows, m, key)
    requires KeyedById(m, idOf)
    ensures forall i, j :: 0 <= i < j < |rows| ==> idOf(rows[i]) != idOf(rows[j])
  {
    var keys :| ListsKeys(rows, m, keys, m.Keys);
    forall i, j | 0 <= i < j < |rows| ensures idOf(rows[i]) != idOf(rows[j]) {
      assert idOf(rows[i]) == keys[i] && idOf(rows[j]) == keys[j];
    }
  }

  /** One more key spliced into the listing and its key sequence at the same place. */
  lemma {:induction false} InsertKeyed<T>(rows: seq<T>, keys: seq<string>, m: map<string, T>,
                                          done: set<string>, k: string, p: nat)
    requires ListsKeys(rows, m, keys, done)
    requires k in m && k !in done && p <= |rows|
    ensures ListsKeys(rows[..p] + [m[k]] + rows[p..], m, keys[..p] + [k] + keys[p..], done + {k})
  {
    var rows', keys' := rows[..p] + [m[k]] + rows[p..], keys[..p] + [k] + keys[p..];
    assert |keys'| == |rows'|;
    forall i | 0 <= i < |keys'|
      ensures keys'[i] in done + {k} && keys'[i] in m && rows'[i] == m[keys'[i]]
      ensures keys'[i] == k <==> i == p
    {
      if i < p {
        assert keys'[i] == keys[i] && rows'[i] == rows[i];
      } else if i > p {
        assert keys'[i] == keys[i - 1] && rows'[i] == rows[i - 1];
      }
    }
    forall i, j | 0 <= i < j < |keys'| ensures keys'[i] != keys'[j] {
      if i != p && j != p {
        var i0 := if i < p then i else i - 1;
        var j0 := if j < p then j else j - 1;
        assert keys'[i] == keys[i0] && keys'[j] == keys[j0];
      }
    }
    forall d | d in done + {k} ensures d in keys' {
      if d == k {
        assert keys'[p] == k;
      } else {
        var j :| 0 <= j < |keys| && keys[j] == d;
        if j < p {
          assert keys'[j] == d;
        } else {
          assert keys'[j + 1] == d;
        }
      }
    }
  }

  /** An element is in the result of an insertion iff it was inserted or was there before. */
  lemma InsertDescMember<T>(s: seq<T>, x: T, key: T -> int, y: T)
    ensures y in InsertDesc(s, x, key) <==> y in s || y == x
  {
    var r := InsertDesc(s, x, key);
    assert y in r <==> y in multiset(r);
    assert y in s <==> y in multiset(s);
  }

  /** The loop invariant of `ListDesc`: the keys taken so far are listed
      once each, newest first, and the keys left are the others. */
  ghost predicate ListedSoFar<T>(rows: seq<T>, m: map<string, T>, keys: seq<string>,
                                 done: set<string>, rest: set<string>, key: T -> int) {
    && rest + done == m.Keys && rest !! done
    && |rows| == |done| && ListsKeys(rows, m, keys, done) && SortedDesc(rows, key)
  }

  /** One loop turn of `ListDesc` keeps its invariant with one more key,
      spliced into the key sequence where the row goes. */
  lemma ListDescStep<T>(rows: seq<T>, m: map<string, T>, keys: seq<string>,
                        done: set<string>, rest: set<string>, key: T -> int, k: string)
    returns (keys': seq<string>)
    requires ListedSoFar(rows, m, keys, done, rest, key)
    requires k in rest
    ensures ListedSoFar(InsertDesc(rows, m[k], key), m, keys', done + {k}, rest - {k}, key)
  {
    var p := InsertPos(rows, m[k], key);
    InsertDescSorted(rows, m[k], key);
    InsertKeyed(rows, keys, m, done, k, p);
    keys' := keys[..p] + [k] + keys[p..];
  }

  /** With every key taken, the invariant is a listing of the table. */
  lemma ListedAll<T>(rows: seq<T>, m: map<string, T>, keys: seq<string>, done: set<string>, key: T -> int)
    requires ListedSoFar(rows, m, keys, done, {}, key)
    ensures ListsTableDesc(rows, m, key)
  {
    assert done == m.Keys;
  }

  method ListDesc<T(==)>(m: map<string, T>, key: T -> int) returns (rows: seq<T>)
    ensures ListsTableDesc(rows, m, key)
  {
    var rest := m.Keys;
    ghost var done: set<string> := {};
    ghost var keys: seq<string> := [];
    rows := [];
    while rest != {}
      invariant ListedSoFar(rows, m, keys, done, rest, key)
      decreases |rest|
    {
      var k :| k in rest;
      keys := ListDescStep(rows, m, keys, done, rest, key, k);
      rows := InsertDesc(rows, m[k], key);
      rest := rest - {k};
      done := done + {k};
    }
    ListedAll(rows, m, keys, done, key);
  }
}
