/**
 * What the hash/MFT correlation in `readMFT` attaches to each file slot: the
 * file numbers of every hash record whose FileOffset names that slot, sorted
 * descending, or the sentinel list [0] when no record names it.
 */
module Correlation {
  import opened Bytes
  import opened Layout
  import opened Sorting

  /** Slots 0-15 are the reserved bootstrap slots; file slots start here. */
  const FIRST_FILE_SLOT: nat := 16

  /** The file numbers of the records of `t` that resolve to `slot`, in table order. */
  function NumbersAt(t: seq<HashRecord>, slot: nat): seq<u32>
  {
    if t == [] then []
    else (if t[0].fileOffset == slot then [t[0].fileNumber] else []) + NumbersAt(t[1..], slot)
  }

  /** The alias list of `slot` after correlation: never empty, always descending. */
  function AliasIds(t: seq<HashRecord>, slot: nat): (ids: seq<u32>)
    ensures |ids| > 0 && SortedDesc(ids)
  {
    if NumbersAt(t, slot) == [] then [0] else SortDesc(NumbersAt(t, slot))
  }

  lemma {:induction false} NumbersAtAppend(a: seq<HashRecord>, b: seq<HashRecord>, slot: nat)
    ensures NumbersAt(a + b, slot) == NumbersAt(a, slot) + NumbersAt(b, slot)
  {
    if a != [] {
      assert (a + b)[1..] == a[1..] + b;
      NumbersAtAppend(a[1..], b, slot);
    } else {
      assert a + b == b;
    }
  }

  lemma {:induction false} NumbersAtNone(t: seq<HashRecord>, slot: nat)
    requires forall k :: 0 <= k < |t| ==> t[k].fileOffset != slot
    ensures NumbersAt(t, slot) == []
  {
    if t != [] {
      NumbersAtNone(t[1..], slot);
    }
  }

  /** `NumbersAt` takes each record naming `slot` once: x occurs as often as the record (x, slot). */
  lemma {:induction false} NumbersAtCount(t: seq<HashRecord>, slot: u32, x: u32)
    ensures multiset(NumbersAt(t, slot))[x] == multiset(t)[HashRecord(x, slot)]
  {
    if t != [] {
      assert t == [t[0]] + t[1..];
      NumbersAtCount(t[1..], slot, x);
    }
  }

  lemma NumbersAtPermutation(a: seq<HashRecord>, b: seq<HashRecord>, slot: u32)
    requires multiset(a) == multiset(b)
    ensures multiset(NumbersAt(a, slot)) == multiset(NumbersAt(b, slot))
  {
    forall x: u32 ensures multiset(NumbersAt(a, slot))[x] == multiset(NumbersAt(b, slot))[x] {
      NumbersAtCount(a, slot, x);
      NumbersAtCount(b, slot, x);
    }
  }

  /**
   * A slot's alias list holds exactly the file numbers of the records naming
   * it, each as often as its record occurs, or is [0] when no record names it.
   */
  lemma AliasIdsExact(t: seq<HashRecord>, slot: u32)
    ensures (forall k :: 0 <= k < |t| ==> t[k].fileOffset != slot) ==> AliasIds(t, slot) == [0]
    ensures (exists k :: 0 <= k < |t| && t[k].fileOffset == slot) ==>
      forall x: u32 :: multiset(AliasIds(t, slot))[x] == multiset(t)[HashRecord(x, slot)]
  {
    if forall k :: 0 <= k < |t| ==> t[k].fileOffset != slot {
      NumbersAtNone(t, slot);
    }
    if exists k :: 0 <= k < |t| && t[k].fileOffset == slot {
      var k :| 0 <= k < |t| && t[k].fileOffset == slot;
      NumbersAtCount(t, slot, t[k].fileNumber);
      assert t[k] == HashRecord(t[k].fileNumber, slot);
      assert t[k] in multiset(t);
      assert NumbersAt(t, slot) != [];
      forall x: u32 ensures multiset(AliasIds(t, slot))[x] == multiset(t)[HashRecord(x, slot)] {
        NumbersAtCount(t, slot, x);
      }
    }
  }

  /** The alias lists do not depend on the order of the hash table, only on its records. */
  lemma AliasIdsOrderIndependent(a: seq<HashRecord>, b: seq<HashRecord>, slot: u32)
    requires multiset(a) == multiset(b)
    ensures AliasIds(a, slot) == AliasIds(b, slot)
  {
    NumbersAtPermutation(a, b, slot);
    if NumbersAt(a, slot) != [] {
      assert NumbersAt(a, slot)[0] in multiset(NumbersAt(b, slot));
      SortedDescUnique(SortDesc(NumbersAt(a, slot)), SortDesc(NumbersAt(b, slot)));
    } else {
      assert |multiset(NumbersAt(b, slot))| == 0;
    }
  }

  /** The file numbers of the records whose FileOffset lies in [lo, hi), in table order. */
  function NumbersIn(t: seq<HashRecord>, lo: nat, hi: nat): seq<u32>
  {
    if t == [] then []
    else (if lo <= t[0].fileOffset < hi then [t[0].fileNumber] else []) + NumbersIn(t[1..], lo, hi)
  }

  /** The records attached to slots lo, lo+1, ..., hi-1, slot by slot. */
  function NumbersBySlot(t: seq<HashRecord>, lo: nat, hi: nat): seq<u32>
    decreases hi - lo
  {
    if lo >= hi then [] else NumbersAt(t, lo) + NumbersBySlot(t, lo + 1, hi)
  }

  lemma {:induction false} NumbersInEmpty(t: seq<HashRecord>, lo: nat, hi: nat)
    requires hi <= lo
    ensures NumbersIn(t, lo, hi) == []
  {
    if t != [] {
      NumbersInEmpty(t[1..], lo, hi);
    }
  }

  lemma {:induction false} NumbersInSplit(t: seq<HashRecord>, lo: nat, hi: nat)
    requires lo < hi
    ensures multiset(NumbersIn(t, lo, hi)) == multiset(NumbersAt(t, lo)) + multiset(NumbersIn(t, lo + 1, hi))
  {
    if t != [] {
      NumbersInSplit(t[1..], lo, hi);
    }
  }

  /**
   * Every record whose FileOffset lies in [lo, hi) is attached to exactly one
   * slot of [lo, hi), and no other record is attached to any of them.
   */
  lemma {:induction false} EachRecordAttachedOnce(t: seq<HashRecord>, lo: nat, hi: nat)
    ensures multiset(NumbersBySlot(t, lo, hi)) == multiset(NumbersIn(t, lo, hi))
    decreases hi - lo
  {
    if lo >= hi {
      NumbersInEmpty(t, lo, hi);
    } else {
      EachRecordAttachedOnce(t, lo + 1, hi);
      NumbersInSplit(t, lo, hi);
    }
  }

  /**
   * The merge step for one slot. In the table sorted by FileOffset, let the
   * records before `start` name lower slots, those in [start, end) name
   * `slot`, and the one at `end` (if any) a higher slot. Then the group's
   * file numbers are all the file numbers of `slot`.
   */
  lemma GroupIsSlotNumbers(sorted: seq<HashRecord>, start: nat, end: nat, slot: u32)
    requires SortedByOffset(sorted)
    requires start <= end <= |sorted|
    requires forall k :: 0 <= k < start ==> sorted[k].fileOffset < slot
    requires forall k :: start <= k < end ==> sorted[k].fileOffset == slot
    requires end < |sorted| ==> sorted[end].fileOffset > slot
    ensures NumbersAt(sorted, slot) == NumbersAt(sorted[start..end], slot)
  {
    var pre, run, post := sorted[..start], sorted[start..end], sorted[end..];
    assert sorted == pre + run + post;
    forall k | 0 <= k < |post| ensures post[k].fileOffset != slot {
      assert sorted[end].fileOffset <= sorted[end + k].fileOffset;
    }
    NumbersAtNone(pre, slot);
    NumbersAtNone(post, slot);
    NumbersAtAppend(pre + run, post, slot);
    NumbersAtAppend(pre, run, slot);
    assert NumbersAt(pre + run, slot) == NumbersAt(run, slot) by {
      assert [] + NumbersAt(run, slot) == NumbersAt(run, slot);
    }
  }

  /** If the sorted table names no file slot, neither does the table. */
  lemma AllReserved(table: seq<HashRecord>, sorted: seq<HashRecord>)
    requires multiset(sorted) == multiset(table)
    requires forall k :: 0 <= k < |sorted| ==> sorted[k].fileOffset < FIRST_FILE_SLOT
    ensures forall k :: 0 <= k < |table| ==> table[k].fileOffset < FIRST_FILE_SLOT
  {
    forall k | 0 <= k < |table| ensures table[k].fileOffset < FIRST_FILE_SLOT {
      assert table[k] in multiset(sorted);
    }
  }

  /**
   * Records {5,16}, {7,16}, {9,17}: slot 16 gets [7, 5], slot 17 gets [9];
   * a slot no record names, such as 18, gets the sentinel [0].
   */
  lemma Example()
    ensures var t := [HashRecord(5, 16), HashRecord(7, 16), HashRecord(9, 17)];
      AliasIds(t, 16) == [7, 5] && AliasIds(t, 17) == [9] && AliasIds(t, 18) == [0]
  {
    ExampleNumbers();
    ExampleSort();
  }

  lemma ExampleNumbers()
    ensures var t := [HashRecord(5, 16), HashRecord(7, 16), HashRecord(9, 17)];
      NumbersAt(t, 16) == [5, 7] && NumbersAt(t, 17) == [9] && NumbersAt(t, 18) == []
  {
    var t := [HashRecord(5, 16), HashRecord(7, 16), HashRecord(9, 17)];
    assert t[1..] == [HashRecord(7, 16), HashRecord(9, 17)] && t[1..][1..] == [HashRecord(9, 17)];
    assert t[1..][1..][1..] == [];
  }

  lemma ExampleSort()
    ensures SortDesc([5, 7]) == [7, 5]
  {
    assert SortDesc([7]) == [7] by {
      assert [7][1..] == [];
    }
    assert SortDesc([5, 7]) == InsertDesc(5, [7]) by {
      assert [5, 7][1..] == [7];
    }
    assert InsertDesc(5, [7]) == [7, 5] by {
      assert [7][1..] == [];
    }
  }
}
