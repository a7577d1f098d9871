/**
 * The two library sorts `readMFT` calls: `usort` of the hash table by
 * FileOffset, ascending, and `rsort($list, SORT_NUMERIC)` of a slot's file
 * numbers, descending. Each is modelled by an insertion sort; callers rely
 * only on the contract (sorted, and a permutation of the input). The order of
 * records with equal keys is left open: PHP before 8.0 does not guarantee it,
 * and the alias lists do not depend on it.
 */
module Sorting {
  import opened Bytes
  import opened Layout

  predicate SortedByOffset(s: seq<HashRecord>)
  {
    forall i, j :: 0 <= i < j < |s| ==> s[i].fileOffset <= s[j].fileOffset
  }

  predicate SortedDesc(s: seq<u32>)
  {
    forall i, j :: 0 <= i < j < |s| ==> s[i] >= s[j]
  }

  function InsertByOffset(r: HashRecord, s: seq<HashRecord>): (t: seq<HashRecord>)
    requires SortedByOffset(s)
    ensures SortedByOffset(t)
    ensures multiset(t) == multiset(s) + multiset{r}
  {
    if s == [] || r.fileOffset <= s[0].fileOffset then [r] + s
    else
      var rest := InsertByOffset(r, s[1..]);
      assert s == [s[0]] + s[1..];
      forall k | 0 <= k < |rest| ensures s[0].fileOffset <= rest[k].fileOffset {
        assert rest[k] in multiset(rest);
        if rest[k] != r {
          HeadIsLowest(s, rest[k]);
        }
      }
      ConsByOffset(s[0], rest);
      [s[0]] + rest
  }

  lemma ConsByOffset(h: HashRecord, s: seq<HashRecord>)
    requires SortedByOffset(s)
    requires forall k :: 0 <= k < |s| ==> h.fileOffset <= s[k].fileOffset
    ensures SortedByOffset([h] + s)
  {
  }

  lemma ConsDesc(h: u32, s: seq<u32>)
    requires SortedDesc(s)
    requires forall k :: 0 <= k < |s| ==> h >= s[k]
    ensures SortedDesc([h] + s)
  {
  }

  /** The head of a table sorted by FileOffset names the lowest slot. */
  lemma HeadIsLowest(s: seq<HashRecord>, r: HashRecord)
    requires SortedByOffset(s) && r in multiset(s)
    ensures s[0].fileOffset <= r.fileOffset
  {
    assert r in s;
  }

  /** `usort($hashtable, fn($a, $b) => $a['FileOffset'] <=> $b['FileOffset'])`. */
  function SortByOffset(s: seq<HashRecord>): (t: seq<HashRecord>)
    ensures SortedByOffset(t)
    ensures multiset(t) == multiset(s)
  {
    if s == [] then []
    else
      assert s == [s[0]] + s[1..];
      InsertByOffset(s[0], SortByOffset(s[1..]))
  }

  function InsertDesc(x: u32, s: seq<u32>): (t: seq<u32>)
    requires SortedDesc(s)
    ensures SortedDesc(t)
    ensures multiset(t) == multiset(s) + multiset{x}
  {
    if s == [] || x >= s[0] then [x] + s
    else
      var rest := InsertDesc(x, s[1..]);
      assert s == [s[0]] + s[1..];
      forall k | 0 <= k < |rest| ensures s[0] >= rest[k] {
        assert rest[k] in multiset(rest);
        if rest[k] != x {
          assert rest[k] in multiset(s);
          HeadIsLargest(s, rest[k]);
        }
      }
      ConsDesc(s[0], rest);
      [s[0]] + rest
  }

  /** `rsort($list, SORT_NUMERIC)`. */
  function SortDesc(s: seq<u32>): (t: seq<u32>)
    ensures SortedDesc(t)
    ensures multiset(t) == multiset(s)
  {
    if s == [] then []
    else
      assert s == [s[0]] + s[1..];
      InsertDesc(s[0], SortDesc(s[1..]))
  }

  /** The head of a descending sequence is its largest element. */
  lemma HeadIsLargest(a: seq<u32>, x: u32)
    requires SortedDesc(a) && x in multiset(a)
    ensures a[0] >= x
  {
    assert x in a;
  }

  /** Two descending sequences with the same elements are equal: the output of `rsort` is fixed by its input's multiset. */
  lemma {:induction false} SortedDescUnique(a: seq<u32>, b: seq<u32>)
    requires SortedDesc(a) && SortedDesc(b)
    requires multiset(a) == multiset(b)
    ensures a == b
  {
    if a == [] {
      assert |b| == |multiset(b)| == 0;
    } else {
      assert a[0] in multiset(a);
      assert b != [];
      assert b[0] in multiset(b);
      HeadIsLargest(a, b[0]);
      HeadIsLargest(b, a[0]);
      assert a[0] == b[0];
      assert a == [a[0]] + a[1..] && b == [b[0]] + b[1..];
      assert multiset(a[1..]) == multiset(a) - multiset{a[0]};
      assert multiset(b[1..]) == multiset(b) - multiset{b[0]};
      SortedDescUnique(a[1..], b[1..]);
    }
  }

  /** Sorting a list that is already descending leaves it as it is. */
  lemma SortDescOfSorted(s: seq<u32>)
    requires SortedDesc(s)
    ensures SortDesc(s) == s
  {
    SortedDescUnique(SortDesc(s), s);
  }
}
