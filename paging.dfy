/** The list endpoints' common query shape: rows ordered by one key, newest
    first (`orderBy: { key: 'desc' }`), then `skip: offset, take: limit`, and
    the `hasMore` flag of the pagination block. */
module Paging {

  /** The rows that `skip: offset, take: limit` selects from `items`. */
  function Page<T>(items: seq<T>, offset: nat, limit: nat): (r: seq<T>)
    ensures |r| == if offset >= |items| then 0
                   else if limit < |items| - offset then limit
                   else |items| - offset
    ensures forall k :: 0 <= k < |r| ==> r[k] == items[offset + k]
  {
    if offset >= |items| then []
    else if limit < |items| - offset then items[offset..offset + limit]
    else items[offset..]
  }

  /** The `hasMore` flag of every list endpoint: `offset + limit < total`. */
  function HasMore(offset: nat, limit: nat, total: nat): bool
  {
    offset + limit < total
  }

  /** `hasMore` is set exactly when some matching row lies beyond the page returned. */
  lemma HasMoreIffRowsBeyondPage<T>(items: seq<T>, offset: nat, limit: nat)
    ensures HasMore(offset, limit, |items|) <==> offset + |Page(items, offset, limit)| < |items|
  {
  }

  predicate SortedDesc<T>(s: seq<T>, key: T -> int)
  {
    forall i, j :: 0 <= i < j < |s| ==> key(s[j]) <= key(s[i])
  }

  function InsertDesc<T>(x: T, s: seq<T>, key: T -> int): (r: seq<T>)
    requires SortedDesc(s, key)
    ensures SortedDesc(r, key)
    ensures multiset(r) == multiset(s) + multiset{x}
    ensures |r| == |s| + 1 && (r[0] == x || (|s| > 0 && r[0] == s[0]))
  {
    if |s| == 0 then [x]
    else if key(s[0]) < key(x) then [x] + s
    else
      var rest := InsertDesc(x, s[1..], key);
      InsertBehind(x, s, key, rest);
      [s[0]] + rest
  }

  /** Inserting behind the first row keeps the order when the new key is no larger. */
  lemma InsertBehind<T>(x: T, s: seq<T>, key: T -> int, rest: seq<T>)
    requires SortedDesc(s, key) && |s| > 0 && key(x) <= key(s[0])
    requires SortedDesc(rest, key) && multiset(rest) == multiset(s[1..]) + multiset{x}
    requires |rest| == |s| && (rest[0] == x || (|s| > 1 && rest[0] == s[1]))
    ensures SortedDesc([s[0]] + rest, key)
    ensures multiset([s[0]] + rest) == multiset(s) + multiset{x}
  {
    assert s == [s[0]] + s[1..];
    assert key(rest[0]) <= key(s[0]);
    var r := [s[0]] + rest;
    forall i, j | 0 <= i < j < |r|
      ensures key(r[j]) <= key(r[i])
    {
      if i > 0 {
        assert r[i] == rest[i - 1] && r[j] == rest[j - 1];
      } else {
        assert r[j] == rest[j - 1];
        assert key(rest[j - 1]) <= key(rest[0]);
      }
    }
  }

  /** `orderBy: { key: 'desc' }`: the rows by descending key. The database leaves
      the order of equal keys open; this model fixes one. */
  function SortDesc<T>(s: seq<T>, key: T -> int): (r: seq<T>)
    ensures SortedDesc(r, key)
    ensures multiset(r) == multiset(s)
  {
    if |s| == 0 then []
    else
      assert s == [s[0]] + s[1..];
      InsertDesc(s[0], SortDesc(s[1..], key), key)
  }

  /** The first `n` rows of a list sorted by descending key: every row left out has
      a key no greater than any row kept. */
  lemma PageOfSortedIsTop<T>(sorted: seq<T>, key: T -> int, n: nat, x: T)
    requires SortedDesc(sorted, key)
    requires x in sorted && x !in Page(sorted, 0, n)
    ensures forall k :: 0 <= k < |Page(sorted, 0, n)| ==> key(x) <= key(Page(sorted, 0, n)[k])
  {
    var top := Page(sorted, 0, n);
    var p :| 0 <= p < |sorted| && sorted[p] == x;
  }

  /** A permutation of a strictly increasing sequence holds each value once. */
  lemma NoRepeats(ids: seq<nat>, sorted: seq<nat>)
    requires forall a, b :: 0 <= a < b < |ids| ==> ids[a] < ids[b]
    requires multiset(sorted) == multiset(ids)
    ensures forall a, b :: 0 <= a < b < |sorted| ==> sorted[a] != sorted[b]
  {
    forall a, b | 0 <= a < b < |sorted|
      ensures sorted[a] != sorted[b]
    {
      if sorted[a] == sorted[b] {
        DistinctCountOne(ids, sorted[a]);
        CountTwo(sorted, a, b);
        assert false;
      }
    }
  }

  /** A strictly increasing sequence holds each value at most once. */
  lemma DistinctCountOne(s: seq<nat>, x: nat)
    requires forall a, b :: 0 <= a < b < |s| ==> s[a] < s[b]
    ensures multiset(s)[x] <= 1
  {
    if |s| > 0 {
      var front := s[..|s| - 1];
      DistinctCountOne(front, x);
      assert s == front + [s[|s| - 1]];
      if s[|s| - 1] == x {
        assert x !in front by {
          forall k | 0 <= k < |front| ensures front[k] != x {
            assert front[k] == s[k] < s[|s| - 1];
          }
        }
      }
    }
  }

  /** Two positions holding one value make it count twice. */
  lemma CountTwo<T>(s: seq<T>, a: nat, b: nat)
    requires a < b < |s| && s[a] == s[b]
    ensures multiset(s)[s[a]] >= 2
  {
    assert s == s[..b] + [s[b]] + s[b + 1..];
    assert s[a] in s[..b];
  }
}
