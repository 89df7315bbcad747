/**
 * The types of the C library's header (`dat.h`) and the pure definitions its
 * operations are specified against: sortedness of the offset tables, the
 * `qsort` calls of `dat_file_import`, the deduplication of object starts,
 * the index a binary search reports, the insertion and removal of a
 * relocation target, the object containing an offset, and the bytes
 * `dat_file_export` writes.
 */
module CFormat {

  import opened Wrappers
  import opened Bytes

  const HEADER_SIZE: nat := 0x20

  /** The initial `last_ref` of the deduplication loop in `dat_file_import`. */
  const NO_REF: u32 := 0xFFFF_FFFF

  /** `DAT_RET`: `Ok` is `DAT_SUCCESS`, the others are the enum's later variants in order. */
  datatype Status = Ok | NotFound | NullParam | AllocationFailure | InvalidSize | InvalidAlignment | OutOfBounds

  /** `DatRootInfo` and `DatExternInfo`, which share one layout: an object and the offset of its name. */
  datatype SymbolInfo = SymbolInfo(dataOffset: u32, symbolOffset: u32)

  /** `DatSlice`: a region of the data buffer. */
  datatype Slice = Slice(offset: u32, size: u32)

  /** The five sections `dat_file_export` serialises. */
  datatype Sections = Sections(data: seq<byte>, relocTargets: seq<u32>, rootInfo: seq<SymbolInfo>,
                               externInfo: seq<SymbolInfo>, symbols: seq<byte>)

  // ---------------------------------------------------------------- ordering

  /** Ascending, duplicates allowed. */
  predicate Sorted(s: seq<u32>)
  {
    forall j, k :: 0 <= j < k < |s| ==> s[j] <= s[k]
  }

  /** Strictly ascending: sorted and free of duplicates. */
  predicate StrictlySorted(s: seq<u32>)
  {
    forall j, k :: 0 <= j < k < |s| ==> s[j] < s[k]
  }

  /** Ascending by `key`, as the comparators handed to `qsort` order them. */
  predicate SortedBy<T>(s: seq<T>, key: T -> nat)
  {
    forall j, k :: 0 <= j < k < |s| ==> key(s[j]) <= key(s[k])
  }

  /** `reloc_cmp`'s key. */
  function Value(x: u32): nat { x }

  /** `root_cmp`'s and `extern_cmp`'s key. */
  function DataOffset(e: SymbolInfo): nat { e.dataOffset }

  /** Sorting words by their value is sorting them. */
  lemma SortedByValue(s: seq<u32>)
    ensures SortedBy(s, Value) <==> Sorted(s)
  {
    if SortedBy(s, Value) {
      forall j, k | 0 <= j < k < |s| ensures s[j] <= s[k] {
        assert Value(s[j]) <= Value(s[k]);
      }
    }
  }

  /** `x` inserted into a sorted sequence before the first element with a larger key. */
  function InsertBy<T>(s: seq<T>, x: T, key: T -> nat): (r: seq<T>)
    requires SortedBy(s, key)
    ensures |r| == |s| + 1
    ensures SortedBy(r, key) && multiset(r) == multiset(s) + multiset{x}
    ensures r[0] == x || (s != [] && r[0] == s[0])
  {
    if s == [] || key(x) <= key(s[0]) then [x] + s
    else
      assert s == [s[0]] + s[1..];
      [s[0]] + InsertBy(s[1..], x, key)
  }

  /**
   * The model of the library's `qsort`: an insertion sort by `key`. Its
   * contract is the whole of what `qsort` promises, a sorted permutation;
   * for entries with equal keys `qsort` fixes no order, and neither do the
   * contracts of the operations that sort.
   */
  function SortBy<T>(s: seq<T>, key: T -> nat): (r: seq<T>)
    ensures SortedBy(r, key) && multiset(r) == multiset(s)
  {
    if s == [] then []
    else
      assert s == s[..|s| - 1] + [s[|s| - 1]];
      InsertBy(SortBy(s[..|s| - 1], key), s[|s| - 1], key)
  }

  /** A sorted permutation of a sequence of words is unique. */
  lemma {:induction false} SortedUnique(a: seq<u32>, b: seq<u32>)
    requires Sorted(a) && Sorted(b) && multiset(a) == multiset(b)
    ensures a == b
    decreases |a|
  {
    if a != [] {
      assert a[0] in multiset(b) && b[0] in multiset(a);
      MinOfSorted(a, b[0]);
      MinOfSorted(b, a[0]);
      assert a[0] == b[0];
      MultisetTail(a);
      MultisetTail(b);
      SortedUnique(a[1..], b[1..]);
    } else {
      assert |b| == |multiset(b)|;
    }
  }

  /** The elements after the first are all elements but one copy of the first. */
  lemma MultisetTail(a: seq<u32>)
    requires a != []
    ensures multiset(a[1..]) == multiset(a) - multiset{a[0]}
  {
    assert a == [a[0]] + a[1..];
  }

  /** The first element of a sorted sequence is its least. */
  lemma MinOfSorted(a: seq<u32>, x: u32)
    requires Sorted(a) && x in multiset(a)
    ensures a != [] && a[0] <= x
  {
    assert x in a;
  }

  // ---------------------------------------------------------- deduplication

  /**
   * The state of the two-index loop that deduplicates the sorted object
   * starts, after it has read `s`: the values it has kept and `last_ref`.
   * A value is kept when it differs from `last_ref`, which starts as `NO_REF`.
   */
  function DedupScan(s: seq<u32>): (r: (seq<u32>, u32))
    ensures |r.0| <= |s|
  {
    if s == [] then ([], NO_REF)
    else
      var prev := DedupScan(s[..|s| - 1]);
      var x := s[|s| - 1];
      if x != prev.1 then (prev.0 + [x], x) else prev
  }

  /** The loop keeps only values it has read. */
  lemma {:induction false} DedupKeepsMembers(s: seq<u32>)
    ensures forall x :: x in DedupScan(s).0 ==> x in s
  {
    if s != [] {
      var p := s[..|s| - 1];
      assert s == p + [s[|s| - 1]];
      DedupKeepsMembers(p);
    }
  }

  /** A run of `NO_REF` is never kept: `last_ref` already holds that value. */
  lemma {:induction false} DedupAllNoRef(s: seq<u32>)
    requires forall i :: 0 <= i < |s| ==> s[i] == NO_REF
    ensures DedupScan(s) == ([], NO_REF)
  {
    if s != [] {
      DedupAllNoRef(s[..|s| - 1]);
    }
  }

  /**
   * On sorted input whose least value is not `NO_REF` the loop keeps every
   * value once, in strictly ascending order, and `last_ref` ends as the last
   * value read.
   */
  lemma {:induction false} DedupDistinct(s: seq<u32>)
    requires Sorted(s) && s != [] && s[0] != NO_REF
    ensures DedupScan(s).0 != [] && DedupScan(s).1 == DedupScan(s).0[|DedupScan(s).0| - 1] == s[|s| - 1]
    ensures StrictlySorted(DedupScan(s).0)
    ensures forall x :: x in s ==> x in DedupScan(s).0
  {
    var p := s[..|s| - 1];
    var x := s[|s| - 1];
    assert s == p + [x];
    if p != [] {
      assert p[0] == s[0];
      DedupDistinct(p);
      var (kept, last) := DedupScan(p);
      assert last == p[|p| - 1] <= x;
      forall y | y in s ensures y in DedupScan(s).0 {
        if y != x { assert y in p; }
      }
    }
  }

  /**
   * On sorted input the loop keeps every distinct value once, in ascending
   * order, unless the least value is `NO_REF`: then all values are `NO_REF`
   * and none is kept.
   */
  lemma DedupSorted(s: seq<u32>)
    requires Sorted(s)
    ensures StrictlySorted(DedupScan(s).0)
    ensures forall x :: x in DedupScan(s).0 ==> x in s
    ensures s != [] && s[0] != NO_REF ==> forall x :: x in s ==> x in DedupScan(s).0
    ensures s != [] && s[0] == NO_REF ==> DedupScan(s).0 == []
    ensures s != [] && s[0] != NO_REF ==>
      DedupScan(s).0 != [] && DedupScan(s).1 == DedupScan(s).0[|DedupScan(s).0| - 1] == s[|s| - 1]
    ensures s == [] || s[0] == NO_REF ==> DedupScan(s).1 == NO_REF
  {
    DedupKeepsMembers(s);
    if s != [] && s[0] != NO_REF {
      DedupDistinct(s);
    } else {
      DedupAllNoRef(s);
    }
  }

  // ---------------------------------------------------------- binary search

  /** The number of elements below `x`: where `x` belongs in a sorted sequence. */
  function Rank(s: seq<u32>, x: u32): (n: nat)
    ensures n <= |s|
  {
    if s == [] then 0 else (if s[0] < x then 1 else 0) + Rank(s[1..], x)
  }

  /** In a sorted sequence exactly the elements before `Rank` are below `x`. */
  lemma {:induction false} RankSplits(s: seq<u32>, x: u32)
    requires Sorted(s)
    ensures forall i :: 0 <= i < Rank(s, x) ==> s[i] < x
    ensures forall i :: Rank(s, x) <= i < |s| ==> x <= s[i]
    decreases |s|
  {
    if s != [] {
      RankSplits(s[1..], x);
      if s[0] < x {
        forall i | 0 <= i < Rank(s, x) ensures s[i] < x {
          if i > 0 { assert s[i] == s[1..][i - 1]; }
        }
        forall i | Rank(s, x) <= i < |s| ensures x <= s[i] {
          assert s[i] == s[1..][i - 1];
        }
      } else {
        assert Rank(s[1..], x) == 0;
      }
    }
  }

  /** Any split of a sorted sequence into elements below `x` and the rest is at `Rank`. */
  lemma {:induction false} RankIs(s: seq<u32>, x: u32, k: nat)
    requires Sorted(s) && k <= |s|
    requires forall i :: 0 <= i < k ==> s[i] < x
    requires forall i :: k <= i < |s| ==> x <= s[i]
    ensures Rank(s, x) == k
    decreases |s|
  {
    if s != [] {
      if k > 0 {
        assert s[0] < x;
        RankIs(s[1..], x, k - 1);
      } else {
        assert x <= s[0];
        RankIs(s[1..], x, 0);
      }
    }
  }

  /**
   * `binary_search_refs` as written, on the window `[left, right)`: probe
   * `left + (right - left) / 2`, report it on a match, otherwise go on in
   * the half the probed value points to; an empty window reports `right`.
   * It is defined on any table; only on a sorted one does it find `ref`.
   */
  function SearchFrom(refs: seq<u32>, ref: u32, left: nat, right: nat): (idx: nat)
    requires left <= right <= |refs|
    ensures left <= idx <= right
    decreases right - left
  {
    if left < right then
      var mid := left + (right - left) / 2;
      if refs[mid] == ref then mid
      else if refs[mid] < ref then SearchFrom(refs, ref, mid + 1, right)
      else SearchFrom(refs, ref, left, mid)
    else right
  }

  /** The index `binary_search_refs(refs, |refs|, ref)` returns. */
  function Search(refs: seq<u32>, ref: u32): (idx: nat)
    ensures idx <= |refs|
  {
    SearchFrom(refs, ref, 0, |refs|)
  }

  /** On a sorted table the search of a window holding a copy of `ref` reports a copy of `ref`. */
  lemma {:induction false} SearchFinds(refs: seq<u32>, ref: u32, left: nat, right: nat, k: nat)
    requires Sorted(refs) && left <= k < right <= |refs| && refs[k] == ref
    ensures SearchFrom(refs, ref, left, right) < |refs| && refs[SearchFrom(refs, ref, left, right)] == ref
    decreases right - left
  {
    var mid := left + (right - left) / 2;
    if refs[mid] < ref {
      BeforeIfBelow(refs, mid, k);
      SearchFinds(refs, ref, mid + 1, right, k);
    } else if refs[mid] > ref {
      BeforeIfBelow(refs, k, mid);
      SearchFinds(refs, ref, left, mid, k);
    }
  }

  /**
   * On a sorted table without `ref`, whose entries left of the window are
   * below `ref` and right of it above, the search reports the rank of `ref`.
   */
  lemma {:induction false} SearchRanks(refs: seq<u32>, ref: u32, left: nat, right: nat)
    requires Sorted(refs) && left <= right <= |refs| && ref !in refs
    requires forall i :: 0 <= i < left ==> refs[i] < ref
    requires forall i :: right <= i < |refs| ==> ref < refs[i]
    ensures SearchFrom(refs, ref, left, right) == Rank(refs, ref)
    decreases right - left
  {
    if left == right {
      RankIs(refs, ref, right);
    } else {
      var mid := left + (right - left) / 2;
      if refs[mid] < ref {
        BelowUpTo(refs, ref, mid);
        SearchRanks(refs, ref, mid + 1, right);
      } else {
        AboveFrom(refs, ref, mid);
        SearchRanks(refs, ref, left, mid);
      }
    }
  }

  /** In a sorted table a smaller entry comes first. */
  lemma BeforeIfBelow(refs: seq<u32>, i: nat, j: nat)
    requires Sorted(refs) && i < |refs| && j < |refs| && refs[i] < refs[j]
    ensures i < j
  {
  }

  /** In a sorted table an entry below `ref` has only entries below `ref` before it. */
  lemma BelowUpTo(refs: seq<u32>, ref: u32, mid: nat)
    requires Sorted(refs) && mid < |refs| && refs[mid] < ref
    ensures forall i :: 0 <= i < mid + 1 ==> refs[i] < ref
  {
    forall i | 0 <= i < mid + 1 ensures refs[i] < ref {
      assert refs[i] <= refs[mid];
    }
  }

  /** In a sorted table an entry above `ref` has only entries above `ref` after it. */
  lemma AboveFrom(refs: seq<u32>, ref: u32, mid: nat)
    requires Sorted(refs) && mid < |refs| && ref < refs[mid]
    ensures forall i :: mid <= i < |refs| ==> ref < refs[i]
  {
    forall i | mid <= i < |refs| ensures ref < refs[i] {
      assert refs[mid] <= refs[i];
    }
  }

  /** `binary_search_refs` on a sorted table: the index of `ref` if present, its rank otherwise. */
  lemma SearchIs(refs: seq<u32>, ref: u32)
    requires Sorted(refs)
    ensures ref in refs ==> Search(refs, ref) < |refs| && refs[Search(refs, ref)] == ref
    ensures ref !in refs ==> Search(refs, ref) == Rank(refs, ref)
  {
    if ref in refs {
      var k :| 0 <= k < |refs| && refs[k] == ref;
      SearchFinds(refs, ref, 0, |refs|, k);
    } else {
      SearchRanks(refs, ref, 0, |refs|);
    }
  }

  // ------------------------------------------------------ relocation targets

  /** An element of `s` with `x` inserted at `k`, in terms of `s`. */
  lemma SplicedAt(s: seq<u32>, k: nat, x: u32, i: nat)
    requires k <= |s| && i <= |s|
    ensures (s[..k] + [x] + s[k..])[i] == if i < k then s[i] else if i == k then x else s[i - 1]
  {
  }

  /** Inserting `x` at its rank keeps a sequence sorted, and strictly so when `x` is new. */
  lemma InsertAtRank(s: seq<u32>, x: u32)
    requires Sorted(s)
    ensures Rank(s, x) <= |s|
    ensures Sorted(s[..Rank(s, x)] + [x] + s[Rank(s, x)..])
    ensures StrictlySorted(s) && x !in s ==> StrictlySorted(s[..Rank(s, x)] + [x] + s[Rank(s, x)..])
  {
    var k := Rank(s, x);
    RankSplits(s, x);
    var t := s[..k] + [x] + s[k..];
    forall i, j | 0 <= i < j < |t| ensures t[i] <= t[j] {
      SplicedAt(s, k, x, i);
      SplicedAt(s, k, x, j);
    }
    if StrictlySorted(s) && x !in s {
      forall i, j | 0 <= i < j < |t| ensures t[i] < t[j] {
        SplicedAt(s, k, x, i);
        SplicedAt(s, k, x, j);
        if i == k { assert s[j - 1] in s; }
        if j == k { assert s[i] in s; }
      }
    }
  }

  /** An insertion at `k` adds exactly `x` to the elements. */
  lemma InsertElements(s: seq<u32>, k: nat, x: u32)
    requires k <= |s|
    ensures forall y :: y in s[..k] + [x] + s[k..] <==> y in s || y == x
    ensures multiset(s[..k] + [x] + s[k..]) == multiset(s) + multiset{x}
  {
    assert s == s[..k] + s[k..];
  }

  /** The targets after `dat_obj_set_ref(from)`: `from` inserted in order, unless already present. */
  function WithRef(s: seq<u32>, x: u32): (r: seq<u32>)
    requires Sorted(s)
    ensures Sorted(r) && x in r
    ensures forall y :: y in r <==> y in s || y == x
    ensures multiset(r) == if x in s then multiset(s) else multiset(s) + multiset{x}
    ensures StrictlySorted(s) ==> StrictlySorted(r)
  {
    if x in s then s
    else
      InsertAtRank(s, x);
      InsertElements(s, Rank(s, x), x);
      s[..Rank(s, x)] + [x] + s[Rank(s, x)..]
  }

  /** A present element sits at its rank. */
  lemma AtRank(s: seq<u32>, x: u32)
    requires Sorted(s) && x in s
    ensures Rank(s, x) < |s| && s[Rank(s, x)] == x
  {
    RankSplits(s, x);
    var i :| 0 <= i < |s| && s[i] == x;
  }

  /** An element of `s` without its element at `k`, in terms of `s`. */
  lemma RemovedAt(s: seq<u32>, k: nat, i: nat)
    requires k < |s| && i < |s| - 1
    ensures (s[..k] + s[k + 1..])[i] == if i < k then s[i] else s[i + 1]
  {
  }

  /** Removing the element at `k` removes one copy of it and keeps the order. */
  lemma RemoveElements(s: seq<u32>, k: nat)
    requires Sorted(s) && k < |s|
    ensures Sorted(s[..k] + s[k + 1..])
    ensures multiset(s[..k] + s[k + 1..]) == multiset(s) - multiset{s[k]}
  {
    var r := s[..k] + s[k + 1..];
    assert s == s[..k] + [s[k]] + s[k + 1..];
    forall i, j | 0 <= i < j < |r| ensures r[i] <= r[j] {
      RemovedAt(s, k, i);
      RemovedAt(s, k, j);
    }
  }

  /** In a strictly sorted sequence, removing the element at `k` leaves no copy of it and keeps the order strict. */
  lemma RemoveStrict(s: seq<u32>, k: nat)
    requires k < |s|
    ensures StrictlySorted(s) ==> StrictlySorted(s[..k] + s[k + 1..]) && s[k] !in s[..k] + s[k + 1..]
  {
    var r := s[..k] + s[k + 1..];
    if !StrictlySorted(s) { return; }
    forall i, j | 0 <= i < j < |r| ensures r[i] < r[j] {
      RemovedAt(s, k, i);
      RemovedAt(s, k, j);
    }
    if s[k] in r {
      var i :| 0 <= i < |r| && r[i] == s[k];
      RemovedAt(s, k, i);
    }
  }

  /** The targets after `dat_obj_remove_ref(from)` with `from` present: one copy of it taken out. */
  function WithoutRef(s: seq<u32>, x: u32): (r: seq<u32>)
    requires Sorted(s) && x in s
    ensures Sorted(r) && |r| == |s| - 1
    ensures multiset(r) == multiset(s) - multiset{x}
    ensures StrictlySorted(s) ==> StrictlySorted(r) && x !in r
  {
    AtRank(s, x);
    RemoveElements(s, Rank(s, x));
    RemoveStrict(s, Rank(s, x));
    s[..Rank(s, x)] + s[Rank(s, x) + 1..]
  }

  /** A target above every target already set goes at the end. */
  lemma WithRefAppends(s: seq<u32>, x: u32)
    requires Sorted(s) && (s == [] || s[|s| - 1] < x)
    ensures WithRef(s, x) == s + [x]
  {
    forall i | 0 <= i < |s| ensures s[i] < x {
      assert s[i] <= s[|s| - 1];
    }
    RankIs(s, x, |s|);
    assert s[..|s|] == s && s[|s|..] == [];
  }

  /** Removing the target at index `k` of a table without duplicates closes the gap there. */
  lemma WithoutRefAt(s: seq<u32>, k: nat)
    requires StrictlySorted(s) && k < |s|
    ensures WithoutRef(s, s[k]) == s[..k] + s[k + 1..]
  {
    RankIs(s, s[k], k);
  }

  /** Removing a target just set restores the previous targets. */
  lemma SetThenRemove(s: seq<u32>, x: u32)
    requires Sorted(s) && x !in s
    ensures WithoutRef(WithRef(s, x), x) == s
  {
    var t := WithRef(s, x);
    assert multiset(WithoutRef(t, x)) == multiset(s);
    SortedUnique(WithoutRef(t, x), s);
  }

  /** Setting a target just removed restores a duplicate-free target list. */
  lemma RemoveThenSet(s: seq<u32>, x: u32)
    requires StrictlySorted(s) && x in s
    ensures WithRef(WithoutRef(s, x), x) == s
  {
    var r := WithoutRef(s, x);
    assert x !in r;
    assert multiset(WithRef(r, x)) == multiset(r) + multiset{x};
    assert x in multiset(s);
    assert multiset(r) + multiset{x} == multiset(s);
    SortedUnique(WithRef(r, x), s);
  }

  /** Setting is idempotent, and setting two targets in either order gives the same list. */
  lemma SetRefCommutes(s: seq<u32>, x: u32, y: u32)
    requires Sorted(s)
    ensures WithRef(WithRef(s, x), x) == WithRef(s, x)
    ensures WithRef(WithRef(s, x), y) == WithRef(WithRef(s, y), x)
  {
    SortedUnique(WithRef(WithRef(s, x), y), WithRef(WithRef(s, y), x));
  }

  // --------------------------------------------------------- object lookup

  /** The index of the last element at most `ptr`, or -1 if there is none. */
  function LastAtMost(s: seq<u32>, ptr: u32): (k: int)
    ensures -1 <= k < |s|
    ensures k >= 0 ==> s[k] <= ptr
    ensures forall j :: k < j < |s| ==> ptr < s[j]
  {
    if s == [] then -1
    else if s[|s| - 1] <= ptr then |s| - 1
    else LastAtMost(s[..|s| - 1], ptr)
  }

  /**
   * What `dat_obj_location(ptr)` reports: the last object start at most
   * `ptr`, sized up to the next start or to the end of the data, with the
   * source's u32 subtraction; `None` when no start is at most `ptr`.
   */
  function ObjectAt(objects: seq<u32>, dataSize: u32, ptr: u32): (r: Option<Slice>)
    ensures r.None? <==> forall j :: 0 <= j < |objects| ==> ptr < objects[j]
    ensures r.Some? ==> r.value.offset <= ptr && r.value.offset in objects
  {
    var k := LastAtMost(objects, ptr);
    if k < 0 then None else Some(SliceAt(objects, dataSize, k))
  }

  /**
   * The object starting at index `k`: up to the next start, or to the end
   * of the data for the last one, with the source's u32 subtraction.
   */
  function SliceAt(objects: seq<u32>, dataSize: u32, k: nat): (sl: Slice)
    requires k < |objects|
    ensures sl.offset == objects[k]
  {
    var end := if k + 1 < |objects| then objects[k + 1] else dataSize;
    Slice(objects[k], Trunc32(end - objects[k]))
  }

  /**
   * The index `dat_obj_location(ptr)` settles on: the search's index, moved
   * back from the end of the table, then back once more if it holds a start
   * past `ptr`; -1 when the table is empty or no start at most `ptr` is left.
   */
  function LocatedIndex(objects: seq<u32>, ptr: u32): (k: int)
    ensures -1 <= k < |objects|
    ensures k >= 0 ==> objects[k] <= ptr
  {
    if objects == [] then -1
    else
      var i0 := Search(objects, ptr);
      var i1 := if i0 == |objects| then i0 - 1 else i0;
      if objects[i1] > ptr && i1 == 0 then -1
      else
        var i2 := if objects[i1] > ptr then i1 - 1 else i1;
        if objects[i2] > ptr then -1 else i2
  }

  /** What `dat_obj_location(ptr)` reports, on any table: the slice at the located index. */
  function Location(objects: seq<u32>, dataSize: u32, ptr: u32): (r: Option<Slice>)
    ensures r.Some? ==> r.value.offset <= ptr && r.value.offset in objects
  {
    var k := LocatedIndex(objects, ptr);
    if k < 0 then None else Some(SliceAt(objects, dataSize, k))
  }

  /**
   * On sorted starts the located index holds the start `LastAtMost` finds,
   * at its index or before it among copies of that start.
   */
  lemma LocatedIndexSorted(objects: seq<u32>, ptr: u32)
    requires Sorted(objects)
    ensures var k, last := LocatedIndex(objects, ptr), LastAtMost(objects, ptr);
      (k < 0 <==> last < 0) && k <= last && (k >= 0 ==> objects[k] == objects[last])
  {
    if objects != [] {
      SearchIs(objects, ptr);
      RankSplits(objects, ptr);
      var last := LastAtMost(objects, ptr);
      var i0 := Search(objects, ptr);
      if ptr in objects {
        assert objects[i0] <= objects[last];
      } else {
        assert forall i :: i0 <= i < |objects| ==> ptr < objects[i];
        assert i0 > 0 ==> objects[i0 - 1] < ptr;
      }
    }
  }

  /**
   * On sorted starts `dat_obj_location` fails exactly when `ObjectAt` does
   * and reports the same start; its slice is `ObjectAt`'s, or empty when
   * that start is duplicated.
   */
  lemma LocationSorted(objects: seq<u32>, dataSize: u32, ptr: u32)
    requires Sorted(objects)
    ensures Location(objects, dataSize, ptr).None? <==> ObjectAt(objects, dataSize, ptr).None?
    ensures Location(objects, dataSize, ptr).Some? ==>
      var sl, at := Location(objects, dataSize, ptr).value, ObjectAt(objects, dataSize, ptr).value;
      sl.offset == at.offset && (sl == at || sl.size == 0)
  {
    LocatedIndexSorted(objects, ptr);
    var k, last := LocatedIndex(objects, ptr), LastAtMost(objects, ptr);
    if 0 <= k < last {
      assert objects[k] <= objects[k + 1] <= objects[last];
    }
  }

  /** On strictly ascending starts `dat_obj_location` reports exactly `ObjectAt`. */
  lemma LocationStrict(objects: seq<u32>, dataSize: u32, ptr: u32)
    requires StrictlySorted(objects)
    ensures Location(objects, dataSize, ptr) == ObjectAt(objects, dataSize, ptr)
  {
    assert Sorted(objects);
    LocatedIndexSorted(objects, ptr);
  }

  /**
   * The starts of the allocation scenario of the C tests: an empty object
   * and an 8-byte one both start at 292. Looking up 292 reports the empty
   * one, where the last start at most 292 is the 8-byte one.
   */
  lemma LocationOnDuplicates()
    ensures Location([0, 256, 292, 292], 300, 292) == Some(Slice(292, 0))
    ensures ObjectAt([0, 256, 292, 292], 300, 292) == Some(Slice(292, 8))
  {
    assert Search([0, 256, 292, 292], 292) == 2;
    assert LastAtMost([0, 256, 292, 292], 292) == 3;
  }

  /**
   * On ascending starts within the data, the reported slice holds `ptr`
   * and no other object starts inside it.
   */
  lemma ObjectAtContains(objects: seq<u32>, dataSize: u32, ptr: u32)
    requires StrictlySorted(objects) && ptr < dataSize
    requires forall j :: 0 <= j < |objects| ==> objects[j] <= dataSize
    requires ObjectAt(objects, dataSize, ptr).Some?
    ensures var sl := ObjectAt(objects, dataSize, ptr).value;
      sl.offset <= ptr < sl.offset + sl.size &&
      forall j :: 0 <= j < |objects| ==> objects[j] <= sl.offset || sl.offset + sl.size <= objects[j]
  {
    var k := LastAtMost(objects, ptr);
    var end := if k + 1 < |objects| then objects[k + 1] else dataSize;
    assert objects[k] <= ptr < end;
    forall j | 0 <= j < |objects| ensures objects[j] <= objects[k] || end <= objects[j] {
      if j > k + 1 { assert objects[k + 1] < objects[j]; }
    }
  }

  /** On sorted starts the lookup fails exactly when there are none or the first is past `ptr`. */
  lemma ObjectAtFails(objects: seq<u32>, dataSize: u32, ptr: u32)
    requires Sorted(objects)
    ensures ObjectAt(objects, dataSize, ptr).None? <==> objects == [] || ptr < objects[0]
  {
    if objects != [] && ptr < objects[0] {
      forall j | 0 <= j < |objects| ensures ptr < objects[j] {
        assert objects[0] <= objects[j];
      }
    }
  }

  // ------------------------------------------------------------- root names

  /** Every entry names a NUL-terminated string of the symbol table. */
  predicate NamesTerminated(symbols: seq<byte>, infos: seq<SymbolInfo>)
  {
    forall k :: 0 <= k < |infos| ==> Terminated(symbols, infos[k].symbolOffset)
  }

  /** The index of the first entry named `name`, or `|infos|` when none is. */
  function FirstNamed(infos: seq<SymbolInfo>, symbols: seq<byte>, name: seq<byte>): (k: nat)
    requires NamesTerminated(symbols, infos)
    ensures k <= |infos|
    ensures forall j :: 0 <= j < k ==> CString(symbols, infos[j].symbolOffset) != name
    ensures k < |infos| ==> CString(symbols, infos[k].symbolOffset) == name
  {
    FirstNamedFrom(infos, symbols, name, 0)
  }

  /** The index of the first entry from `i` on named `name`, or `|infos|` when none is. */
  function FirstNamedFrom(infos: seq<SymbolInfo>, symbols: seq<byte>, name: seq<byte>, i: nat): (k: nat)
    requires i <= |infos| && NamesTerminated(symbols, infos)
    ensures i <= k <= |infos|
    ensures forall j :: i <= j < k ==> CString(symbols, infos[j].symbolOffset) != name
    ensures k < |infos| ==> CString(symbols, infos[k].symbolOffset) == name
    decreases |infos| - i
  {
    if i == |infos| || CString(symbols, infos[i].symbolOffset) == name then i
    else FirstNamedFrom(infos, symbols, name, i + 1)
  }

  /** `dat_root_find`: the object of the first root named `name`, if any. */
  function FindRoot(roots: seq<SymbolInfo>, symbols: seq<byte>, name: seq<byte>): (r: Option<u32>)
    requires NamesTerminated(symbols, roots)
    ensures r.None? <==> forall k :: 0 <= k < |roots| ==> CString(symbols, roots[k].symbolOffset) != name
    ensures r.Some? ==> r == Some(roots[FirstNamed(roots, symbols, name)].dataOffset)
  {
    var k := FirstNamed(roots, symbols, name);
    if k < |roots| then Some(roots[k].dataOffset) else None
  }

  /** The name appended by `dat_root_add` reads back as the C string at its offset. */
  lemma AppendedName(symbols: seq<byte>, name: seq<byte>)
    requires 0 !in name
    ensures Terminated(symbols + name + [0], |symbols|)
    ensures CString(symbols + name + [0], |symbols|) == name
  {
    var t := symbols + name + [0];
    assert t[|symbols| + |name|] == 0;
    forall j | |symbols| <= j < |symbols| + |name| ensures t[j] != 0 {
      assert t[j] == name[j - |symbols|];
    }
    assert NulFrom(t, |symbols|) == |symbols| + |name|;
    assert t[|symbols|..|symbols| + |name|] == name;
  }

  /** Appending to the symbol table leaves the names already in it unchanged. */
  lemma AppendKeepsName(symbols: seq<byte>, more: seq<byte>, at: nat)
    requires Terminated(symbols, at)
    ensures Terminated(symbols + more, at) && CString(symbols + more, at) == CString(symbols, at)
  {
    var t := symbols + more;
    var k := NulFrom(symbols, at);
    assert t[k] == 0;
    assert NulFrom(t, at) == k by {
      forall j | at <= j < k ensures t[j] != 0 { assert t[j] == symbols[j]; }
    }
    assert t[at..k] == symbols[at..k];
  }

  /** The first entry named `name` is at `k` when none before it is and `k` is or ends the table. */
  lemma FirstNamedIs(infos: seq<SymbolInfo>, symbols: seq<byte>, name: seq<byte>, k: nat)
    requires NamesTerminated(symbols, infos) && k <= |infos|
    requires forall j :: 0 <= j < k ==> CString(symbols, infos[j].symbolOffset) != name
    requires k < |infos| ==> CString(symbols, infos[k].symbolOffset) == name
    ensures FirstNamed(infos, symbols, name) == k
  {
  }

  /** The root that `dat_root_add` inserts at `index`, the others shifting up. */
  function InsertRoot(roots: seq<SymbolInfo>, index: nat, root: SymbolInfo): (r: seq<SymbolInfo>)
    requires index <= |roots|
    ensures |r| == |roots| + 1 && r[index] == root
    ensures forall j :: 0 <= j < index ==> r[j] == roots[j]
    ensures forall j :: index < j < |r| ==> r[j] == roots[j - 1]
  {
    roots[..index] + [root] + roots[index..]
  }

  /** The name of each root after `dat_root_add`. */
  lemma InsertedNames(roots: seq<SymbolInfo>, symbols: seq<byte>, index: nat, obj: u32, name: seq<byte>, j: nat)
    requires NamesTerminated(symbols, roots) && 0 !in name && index <= |roots| && |symbols| < U32_LIMIT
    requires j <= |roots|
    ensures var r := InsertRoot(roots, index, SymbolInfo(obj, |symbols|));
      Terminated(symbols + name + [0], r[j].symbolOffset) &&
      CString(symbols + name + [0], r[j].symbolOffset) ==
        if j < index then CString(symbols, roots[j].symbolOffset)
        else if j == index then name
        else CString(symbols, roots[j - 1].symbolOffset)
  {
    Assoc(symbols, name, [0], symbols + name + [0]);
    if j == index {
      AppendedName(symbols, name);
    } else if j < index {
      AppendKeepsName(symbols, name + [0], roots[j].symbolOffset);
    } else {
      AppendKeepsName(symbols, name + [0], roots[j - 1].symbolOffset);
    }
  }

  /** `dat_root_add` keeps every root's name terminated. */
  lemma InsertedTerminated(roots: seq<SymbolInfo>, symbols: seq<byte>, index: nat, obj: u32, name: seq<byte>)
    requires NamesTerminated(symbols, roots) && 0 !in name && index <= |roots| && |symbols| < U32_LIMIT
    ensures NamesTerminated(symbols + name + [0], InsertRoot(roots, index, SymbolInfo(obj, |symbols|)))
  {
    var r := InsertRoot(roots, index, SymbolInfo(obj, |symbols|));
    forall j | 0 <= j < |r| ensures Terminated(symbols + name + [0], r[j].symbolOffset) {
      InsertedNames(roots, symbols, index, obj, name, j);
    }
  }

  /** After `dat_root_add` of a name no root has yet, `dat_root_find` of that name finds the new root. */
  lemma RootAddFinds(roots: seq<SymbolInfo>, symbols: seq<byte>, index: nat, obj: u32, name: seq<byte>)
    requires NamesTerminated(symbols, roots) && 0 !in name && index <= |roots| && |symbols| < U32_LIMIT
    requires FindRoot(roots, symbols, name).None?
    ensures NamesTerminated(symbols + name + [0], InsertRoot(roots, index, SymbolInfo(obj, |symbols|)))
    ensures FindRoot(InsertRoot(roots, index, SymbolInfo(obj, |symbols|)), symbols + name + [0], name) == Some(obj)
  {
    var r := InsertRoot(roots, index, SymbolInfo(obj, |symbols|));
    var syms := symbols + name + [0];
    InsertedTerminated(roots, symbols, index, obj, name);
    forall j | 0 <= j < index ensures CString(syms, r[j].symbolOffset) != name {
      InsertedNames(roots, symbols, index, obj, name, j);
    }
    InsertedNames(roots, symbols, index, obj, name, index);
    FirstNamedIs(r, syms, name, index);
  }

  /** The index of a root named `other` after the insertion of a root at `index`. */
  function ShiftedAt(k: nat, index: nat): nat
  {
    if k < index then k else k + 1
  }

  /** The root at `k` before the insertion is at `ShiftedAt(k, index)` after it. */
  lemma ShiftedRoot(roots: seq<SymbolInfo>, index: nat, root: SymbolInfo, k: nat)
    requires index <= |roots| && k < |roots|
    ensures ShiftedAt(k, index) < |roots| + 1 && InsertRoot(roots, index, root)[ShiftedAt(k, index)] == roots[k]
  {
  }

  /** After `dat_root_add` of `name`, the roots before the first named `other` are still not named `other`. */
  lemma InsertedSkips(roots: seq<SymbolInfo>, symbols: seq<byte>, index: nat, obj: u32, name: seq<byte>,
                      other: seq<byte>, j: nat)
    requires NamesTerminated(symbols, roots) && 0 !in name && index <= |roots| && |symbols| < U32_LIMIT
    requires other != name && j < ShiftedAt(FirstNamed(roots, symbols, other), index)
    ensures var r := InsertRoot(roots, index, SymbolInfo(obj, |symbols|));
      j < |r| && Terminated(symbols + name + [0], r[j].symbolOffset) &&
      CString(symbols + name + [0], r[j].symbolOffset) != other
  {
    InsertedNames(roots, symbols, index, obj, name, j);
    if j < index {
      assert CString(symbols, roots[j].symbolOffset) != other;
    } else if j > index {
      assert CString(symbols, roots[j - 1].symbolOffset) != other;
    }
  }

  /** After `dat_root_add` of `name`, no root before the shifted first `other` is named `other`. */
  lemma InsertedSkipsAll(roots: seq<SymbolInfo>, symbols: seq<byte>, index: nat, obj: u32, name: seq<byte>,
                         other: seq<byte>)
    requires NamesTerminated(symbols, roots) && 0 !in name && index <= |roots| && |symbols| < U32_LIMIT
    requires other != name
    ensures var r := InsertRoot(roots, index, SymbolInfo(obj, |symbols|));
      NamesTerminated(symbols + name + [0], r) &&
      forall j :: 0 <= j < ShiftedAt(FirstNamed(roots, symbols, other), index) ==>
        CString(symbols + name + [0], r[j].symbolOffset) != other
  {
    InsertedTerminated(roots, symbols, index, obj, name);
    var r := InsertRoot(roots, index, SymbolInfo(obj, |symbols|));
    forall j | 0 <= j < ShiftedAt(FirstNamed(roots, symbols, other), index)
      ensures CString(symbols + name + [0], r[j].symbolOffset) != other
    {
      InsertedSkips(roots, symbols, index, obj, name, other, j);
    }
  }

  /** After `dat_root_add` of `name`, the first root named `other` is still named `other` at its shifted index. */
  lemma InsertedFound(roots: seq<SymbolInfo>, symbols: seq<byte>, index: nat, obj: u32, name: seq<byte>,
                      other: seq<byte>)
    requires NamesTerminated(symbols, roots) && 0 !in name && index <= |roots| && |symbols| < U32_LIMIT
    requires FirstNamed(roots, symbols, other) < |roots|
    ensures var r := InsertRoot(roots, index, SymbolInfo(obj, |symbols|));
      var k' := ShiftedAt(FirstNamed(roots, symbols, other), index);
      k' < |r| && Terminated(symbols + name + [0], r[k'].symbolOffset) &&
      CString(symbols + name + [0], r[k'].symbolOffset) == other
  {
    var k := FirstNamed(roots, symbols, other);
    ShiftedRoot(roots, index, SymbolInfo(obj, |symbols|), k);
    InsertedNames(roots, symbols, index, obj, name, ShiftedAt(k, index));
  }

  /** After `dat_root_add` of `name`, the first root named `other` is the one that was first before. */
  lemma FirstNamedShifts(roots: seq<SymbolInfo>, symbols: seq<byte>, index: nat, obj: u32, name: seq<byte>,
                         other: seq<byte>)
    requires NamesTerminated(symbols, roots) && 0 !in name && index <= |roots| && |symbols| < U32_LIMIT
    requires other != name
    ensures NamesTerminated(symbols + name + [0], InsertRoot(roots, index, SymbolInfo(obj, |symbols|)))
    ensures FirstNamed(InsertRoot(roots, index, SymbolInfo(obj, |symbols|)), symbols + name + [0], other)
      == ShiftedAt(FirstNamed(roots, symbols, other), index)
  {
    InsertedSkipsAll(roots, symbols, index, obj, name, other);
    if FirstNamed(roots, symbols, other) < |roots| {
      InsertedFound(roots, symbols, index, obj, name, other);
    }
    FirstNamedIs(InsertRoot(roots, index, SymbolInfo(obj, |symbols|)), symbols + name + [0], other,
                 ShiftedAt(FirstNamed(roots, symbols, other), index));
  }

  /** After `dat_root_add`, `dat_root_find` of any other name finds what it found before. */
  lemma RootAddKeeps(roots: seq<SymbolInfo>, symbols: seq<byte>, index: nat, obj: u32, name: seq<byte>,
                     other: seq<byte>)
    requires NamesTerminated(symbols, roots) && 0 !in name && index <= |roots| && |symbols| < U32_LIMIT
    requires other != name
    ensures NamesTerminated(symbols + name + [0], InsertRoot(roots, index, SymbolInfo(obj, |symbols|)))
    ensures FindRoot(InsertRoot(roots, index, SymbolInfo(obj, |symbols|)), symbols + name + [0], other)
      == FindRoot(roots, symbols, other)
  {
    FirstNamedShifts(roots, symbols, index, obj, name, other);
    var k := FirstNamed(roots, symbols, other);
    if k < |roots| {
      ShiftedRoot(roots, index, SymbolInfo(obj, |symbols|), k);
    }
  }

  /** `dat_root_remove` at the index of a `dat_root_add` undoes the insertion. */
  lemma RemoveInsertedRoot(roots: seq<SymbolInfo>, index: nat, root: SymbolInfo)
    requires index <= |roots|
    ensures var r := InsertRoot(roots, index, root); r[..index] + r[index + 1..] == roots
  {
    var r := InsertRoot(roots, index, root);
    assert r[..index] == roots[..index];
    assert r[index + 1..] == roots[index..];
  }

  // ---------------------------------------------------------------- export

  /** The (object, symbol) words of a table of entries, pair by pair. */
  function EntryWords(es: seq<SymbolInfo>): (r: seq<nat>)
    ensures |r| == 2 * |es| && AllU32(r)
  {
    if es == [] then []
    else [es[0].dataOffset as nat, es[0].symbolOffset as nat] + EntryWords(es[1..])
  }

  /** The exact length `dat_file_export` writes. */
  function ExportSize(s: Sections): nat
  {
    HEADER_SIZE + |s.data| + 4 * |s.relocTargets| + 8 * |s.rootInfo| + 8 * |s.externInfo| + |s.symbols|
  }

  /** The header: the five counts as big-endian words and 12 zero bytes. */
  function HeaderBytes(s: Sections): (r: seq<byte>)
    requires ExportSize(s) < U32_LIMIT
    ensures |r| == HEADER_SIZE
  {
    Words([ExportSize(s), |s.data|, |s.relocTargets|, |s.rootInfo|, |s.externInfo|]) + Zeros(12)
  }

  /** The two words of the `i`-th entry. */
  lemma {:induction false} EntryWordsAt(es: seq<SymbolInfo>, i: nat)
    requires i < |es|
    ensures EntryWords(es)[2 * i] == es[i].dataOffset && EntryWords(es)[2 * i + 1] == es[i].symbolOffset
  {
    if i > 0 {
      EntryWordsAt(es[1..], i - 1);
    }
  }

  /** The bytes of an exported file. */
  function ExportImage(s: Sections): (r: seq<byte>)
    requires ExportSize(s) < U32_LIMIT
    ensures |r| == ExportSize(s)
  {
    HeaderBytes(s) + s.data + Words(s.relocTargets) + Words(EntryWords(s.rootInfo))
      + Words(EntryWords(s.externInfo)) + s.symbols
  }

  /**
   * The header of an exported file: its own length at offset 0, then the
   * section sizes, then zeros up to 0x20.
   */
  lemma ExportImageHeader(s: Sections)
    requires ExportSize(s) < U32_LIMIT
    ensures ReadU32(ExportImage(s), 0) == |ExportImage(s)|
    ensures ReadU32(ExportImage(s), 4) == |s.data|
    ensures ReadU32(ExportImage(s), 8) == |s.relocTargets|
    ensures ReadU32(ExportImage(s), 12) == |s.rootInfo|
    ensures ReadU32(ExportImage(s), 16) == |s.externInfo|
    ensures forall i :: 20 <= i < HEADER_SIZE ==> ExportImage(s)[i] == 0
  {
    var t := [ExportSize(s), |s.data|, |s.relocTargets|, |s.rootInfo|, |s.externInfo|];
    var body := s.data + Words(s.relocTargets) + Words(EntryWords(s.rootInfo))
      + Words(EntryWords(s.externInfo)) + s.symbols;
    var img := ExportImage(s);
    Regroup1(HeaderBytes(s), s.data, Words(s.relocTargets), Words(EntryWords(s.rootInfo)),
      Words(EntryWords(s.externInfo)), s.symbols, img);
    HeaderRead(t, body, img);
  }

  /** A header written as five words and twelve zero bytes reads back as those words. */
  lemma HeaderRead(t: seq<nat>, rest: seq<byte>, img: seq<byte>)
    requires |t| == 5 && AllU32(t) && img == Words(t) + Zeros(12) + rest
    ensures |img| >= HEADER_SIZE
    ensures ReadU32(img, 0) == t[0] && ReadU32(img, 4) == t[1] && ReadU32(img, 8) == t[2]
    ensures ReadU32(img, 12) == t[3] && ReadU32(img, 16) == t[4]
    ensures forall i :: 20 <= i < HEADER_SIZE ==> img[i] == 0
  {
    Assoc(Words(t), Zeros(12), rest, img);
    ReadLeadingWord(t, Zeros(12) + rest, img, 0);
    ReadLeadingWord(t, Zeros(12) + rest, img, 1);
    ReadLeadingWord(t, Zeros(12) + rest, img, 2);
    ReadLeadingWord(t, Zeros(12) + rest, img, 3);
    ReadLeadingWord(t, Zeros(12) + rest, img, 4);
    forall i | 20 <= i < HEADER_SIZE ensures img[i] == 0 {
      assert img[i] == Zeros(12)[i - 20];
    }
  }

  /** The relocation section of an exported file lists the targets in their order. */
  lemma ExportImageRelocations(s: Sections)
    requires ExportSize(s) < U32_LIMIT
    ensures HEADER_SIZE + |s.data| + 4 * |s.relocTargets| <= |ExportImage(s)|
    ensures ReadWords(ExportImage(s), HEADER_SIZE + |s.data|, |s.relocTargets|) == s.relocTargets
  {
    var pre := HeaderBytes(s) + s.data;
    var post := Words(EntryWords(s.rootInfo)) + Words(EntryWords(s.externInfo)) + s.symbols;
    assert ExportImage(s) == pre + Words(s.relocTargets) + post;
    ReadWordsOf(pre, s.relocTargets, post, ExportImage(s), HEADER_SIZE + |s.data|, |s.relocTargets|);
  }

  /** The entries of one more table element follow those of the elements before it. */
  lemma {:induction false} EntryWordsAppend(a: seq<SymbolInfo>, b: seq<SymbolInfo>)
    ensures EntryWords(a + b) == EntryWords(a) + EntryWords(b)
    decreases |a|
  {
    if a != [] {
      assert (a + b)[1..] == a[1..] + b;
      EntryWordsAppend(a[1..], b);
    } else {
      assert a + b == b;
    }
  }

  /** The words of a table prefix, one entry longer. */
  lemma EntryWordsNext(es: seq<SymbolInfo>, i: nat)
    requires i < |es|
    ensures EntryWords(es[..i + 1]) == EntryWords(es[..i]) + [es[i].dataOffset as nat, es[i].symbolOffset as nat]
  {
    EntryWordsAppend(es[..i], [es[i]]);
    assert es[..i] + [es[i]] == es[..i + 1];
  }

  /** The bytes after the first word of an exported file. */
  function ExportTail(s: Sections): (r: seq<byte>)
    requires ExportSize(s) < U32_LIMIT
  {
    Words([|s.data|, |s.relocTargets|, |s.rootInfo|, |s.externInfo|]) + Zeros(12) + s.data + Words(s.relocTargets)
      + Words(EntryWords(s.rootInfo)) + Words(EntryWords(s.externInfo)) + s.symbols
  }

  /** An exported file is its size followed by `ExportTail`. */
  lemma ExportImageSplit(s: Sections)
    requires ExportSize(s) < U32_LIMIT
    ensures ExportImage(s) == BE32(ExportSize(s)) + ExportTail(s)
  {
    var t := [ExportSize(s), |s.data|, |s.relocTargets|, |s.rootInfo|, |s.externInfo|];
    assert t[1..] == [|s.data|, |s.relocTargets|, |s.rootInfo|, |s.externInfo|];
    assert Words(t) == BE32(ExportSize(s)) + Words(t[1..]);
    var a := Words(t[1..]) + Zeros(12);
    assert HeaderBytes(s) == BE32(ExportSize(s)) + a;
    Prepend(BE32(ExportSize(s)), a, s.data, Words(s.relocTargets), Words(EntryWords(s.rootInfo)),
      Words(EntryWords(s.externInfo)), s.symbols);
  }

  /** Regrouping a six-way concatenation behind a prefix. */
  lemma Prepend(x: seq<byte>, a: seq<byte>, b: seq<byte>, c: seq<byte>, d: seq<byte>, e: seq<byte>, f: seq<byte>)
    ensures (x + a) + b + c + d + e + f == x + (a + b + c + d + e + f)
  {
  }

  // ---------------------------------------------------------------- import

  /** The `n` (object, symbol) pairs stored from `at`. */
  function ReadInfos(s: seq<byte>, at: nat, n: nat): (r: seq<SymbolInfo>)
    requires at + 8 * n <= |s|
    ensures |r| == n
    ensures forall i :: 0 <= i < n ==> r[i] == SymbolInfo(ReadU32(s, at + 8 * i), ReadU32(s, at + 8 * i + 4))
  {
    seq(n, i requires 0 <= i < n => SymbolInfo(ReadU32(s, at + 8 * i), ReadU32(s, at + 8 * i + 4)))
  }

  /**
   * What `dat_file_import` reads without checking: the sections named by
   * the header lie inside the file, and every relocation target addresses
   * a whole word of the data. The source validates only the file size.
   */
  predicate Importable(file: seq<byte>)
    requires |file| >= HEADER_SIZE
  {
    var fileSize := ReadU32(file, 0);
    var dataSize := ReadU32(file, 4);
    var relocCount := ReadU32(file, 8);
    && HEADER_SIZE + dataSize + 4 * relocCount + 8 * ReadU32(file, 12) + 8 * ReadU32(file, 16) <= fileSize <= |file|
    && forall i :: 0 <= i < relocCount ==> ReadU32(file, HEADER_SIZE + dataSize + 4 * i) + 4 <= dataSize
  }

  /**
   * What `dat_file_import` keeps of an importable file: the data and
   * symbol sections as stored, each table a sorted permutation of the
   * stored one, and the object table of the values that the relocations,
   * roots and externs name.
   */
  predicate Imported(file: seq<byte>, s: Sections, objects: seq<u32>)
    requires |file| >= HEADER_SIZE && Importable(file)
  {
    && s.data == file[HEADER_SIZE..RelocStart(file)]
    && Sorted(s.relocTargets) && multiset(s.relocTargets) == multiset(ReadWords(file, RelocStart(file), ReadU32(file, 8)))
    && SortedBy(s.rootInfo, DataOffset)
    && multiset(s.rootInfo) == multiset(ReadInfos(file, RootStart(file), ReadU32(file, 12)))
    && SortedBy(s.externInfo, DataOffset)
    && multiset(s.externInfo) == multiset(ReadInfos(file, ExternStart(file), ReadU32(file, 16)))
    && s.symbols == file[SymbolStart(file)..ReadU32(file, 0)]
    && (forall i :: 0 <= i < |s.relocTargets| ==> s.relocTargets[i] + 4 <= |s.data|)
    && ObjectTable(objects, TargetValues(s.data, s.relocTargets) + Offsets(s.rootInfo) + Offsets(s.externInfo))
  }

  /** Where the relocation table of a file starts. */
  function RelocStart(file: seq<byte>): nat
    requires |file| >= HEADER_SIZE
  {
    HEADER_SIZE + ReadU32(file, 4)
  }

  /** Where the root table of a file starts. */
  function RootStart(file: seq<byte>): nat
    requires |file| >= HEADER_SIZE
  {
    RelocStart(file) + 4 * ReadU32(file, 8)
  }

  /** Where the extern table of a file starts. */
  function ExternStart(file: seq<byte>): nat
    requires |file| >= HEADER_SIZE
  {
    RootStart(file) + 8 * ReadU32(file, 12)
  }

  /** Where the symbol table of a file starts. */
  function SymbolStart(file: seq<byte>): nat
    requires |file| >= HEADER_SIZE
  {
    ExternStart(file) + 8 * ReadU32(file, 16)
  }

  /** `t` holds the entries of `es`, data offset first: what `EntryWords` produces. */
  predicate PairsOf(t: seq<nat>, es: seq<SymbolInfo>)
  {
    |t| == 2 * |es| &&
    forall i :: 0 <= i < |es| ==> t[2 * i] == es[i].dataOffset && t[2 * i + 1] == es[i].symbolOffset
  }

  lemma EntryWordsPairs(es: seq<SymbolInfo>)
    ensures PairsOf(EntryWords(es), es)
  {
    forall i | 0 <= i < |es|
      ensures EntryWords(es)[2 * i] == es[i].dataOffset && EntryWords(es)[2 * i + 1] == es[i].symbolOffset
    {
      EntryWordsAt(es, i);
    }
  }

  /** Reading back a written table of entries, from any surrounding bytes, gives the table. */
  lemma ReadInfosOf(pre: seq<byte>, t: seq<nat>, es: seq<SymbolInfo>, post: seq<byte>, s: seq<byte>, at: nat, n: nat)
    requires AllU32(t) && s == pre + Words(t) + post && PairsOf(t, es)
    requires at == |pre| && n == |es|
    ensures at + 8 * n <= |s| && ReadInfos(s, at, n) == es
  {
    forall i | 0 <= i < n
      ensures ReadInfos(s, at, n)[i] == es[i]
    {
      ReadWordAt(pre, t, post, s, at + 4 * (2 * i), 2 * i);
      ReadWordAt(pre, t, post, s, at + 4 * (2 * i + 1), 2 * i + 1);
    }
  }

  /**
   * What `dat_file_export` writes passes the import's size check and
   * satisfies what the import trusts, and its sections start where the
   * header says.
   */
  lemma ExportImportable(s: Sections)
    requires ExportSize(s) < U32_LIMIT
    requires forall i :: 0 <= i < |s.relocTargets| ==> s.relocTargets[i] + 4 <= |s.data|
    ensures |ExportImage(s)| >= HEADER_SIZE && Importable(ExportImage(s))
    ensures ReadU32(ExportImage(s), 0) == |ExportImage(s)|
    ensures RelocStart(ExportImage(s)) == HEADER_SIZE + |s.data|
    ensures ReadU32(ExportImage(s), 8) == |s.relocTargets| && ReadU32(ExportImage(s), 12) == |s.rootInfo|
    ensures ReadU32(ExportImage(s), 16) == |s.externInfo|
    ensures RootStart(ExportImage(s)) == HEADER_SIZE + |s.data| + 4 * |s.relocTargets|
    ensures ExternStart(ExportImage(s)) == RootStart(ExportImage(s)) + 8 * |s.rootInfo|
    ensures SymbolStart(ExportImage(s)) == ExternStart(ExportImage(s)) + 8 * |s.externInfo|
  {
    var img := ExportImage(s);
    ExportImageHeader(s);
    ExportImageRelocations(s);
    forall i | 0 <= i < |s.relocTargets|
      ensures ReadU32(img, HEADER_SIZE + |s.data| + 4 * i) + 4 <= |s.data|
    {
      assert ReadWords(img, HEADER_SIZE + |s.data|, |s.relocTargets|)[i] == s.relocTargets[i];
    }
  }

  /**
   * `dat_file_import` of what `dat_file_export` wrote gives back the data
   * and the symbols as they were and each table up to the order that
   * sorting chooses.
   */
  lemma ExportImport(s: Sections, t: Sections, objects: seq<u32>)
    requires ExportSize(s) < U32_LIMIT
    requires forall i :: 0 <= i < |s.relocTargets| ==> s.relocTargets[i] + 4 <= |s.data|
    ensures |ExportImage(s)| >= HEADER_SIZE && Importable(ExportImage(s))
    ensures Imported(ExportImage(s), t, objects) ==>
      && t.data == s.data && t.symbols == s.symbols
      && multiset(t.relocTargets) == multiset(s.relocTargets)
      && multiset(t.rootInfo) == multiset(s.rootInfo)
      && multiset(t.externInfo) == multiset(s.externInfo)
  {
    var img := ExportImage(s);
    var h, d, r := HeaderBytes(s), s.data, Words(s.relocTargets);
    var a, e, y := Words(EntryWords(s.rootInfo)), Words(EntryWords(s.externInfo)), s.symbols;
    ExportImportable(s);
    ExportImageRelocations(s);
    Regroup2(h, d, r, a, e, y, img);
    Middle(h, d, r + a + e + y, img, HEADER_SIZE, RelocStart(img));
    Regroup4(h, d, r, a, e, y, img);
    EntryWordsPairs(s.rootInfo);
    EntryWordsPairs(s.externInfo);
    ReadInfosOf(h + d + r, EntryWords(s.rootInfo), s.rootInfo, e + y, img, RootStart(img), |s.rootInfo|);
    ReadInfosOf(h + d + r + a, EntryWords(s.externInfo), s.externInfo, y, img, ExternStart(img), |s.externInfo|);
    TailTo(h + d + r + a + e, y, img, SymbolStart(img), ReadU32(img, 0));
  }

  /** A table of targets kept sorted, as `dat_obj_set_ref` keeps it, comes back exactly. */
  lemma ExportImportTargets(s: Sections, t: Sections, objects: seq<u32>)
    requires ExportSize(s) < U32_LIMIT && Sorted(s.relocTargets)
    requires forall i :: 0 <= i < |s.relocTargets| ==> s.relocTargets[i] + 4 <= |s.data|
    requires |ExportImage(s)| >= HEADER_SIZE && Importable(ExportImage(s)) && Imported(ExportImage(s), t, objects)
    ensures t.relocTargets == s.relocTargets
  {
    ExportImport(s, t, objects);
    SortedUnique(t.relocTargets, s.relocTargets);
  }

  /** Every element of a permutation keeps a bound the original elements keep. */
  lemma PermutedBound(a: seq<u32>, b: seq<u32>, bound: nat)
    requires multiset(a) == multiset(b)
    requires forall i :: 0 <= i < |a| ==> a[i] + 4 <= bound
    ensures forall i :: 0 <= i < |b| ==> b[i] + 4 <= bound
  {
    forall i | 0 <= i < |b| ensures b[i] + 4 <= bound {
      assert b[i] in multiset(a);
      var j :| 0 <= j < |a| && a[j] == b[i];
    }
  }

  /** The words stored at the relocation targets: the objects the relocations point to. */
  function TargetValues(data: seq<byte>, targets: seq<u32>): (r: seq<u32>)
    requires forall i :: 0 <= i < |targets| ==> targets[i] + 4 <= |data|
    ensures |r| == |targets| && forall i :: 0 <= i < |targets| ==> r[i] == ReadU32(data, targets[i])
  {
    seq(|targets|, i requires 0 <= i < |targets| => ReadU32(data, targets[i]))
  }

  /** The objects of a root or extern table. */
  function Offsets(infos: seq<SymbolInfo>): (r: seq<u32>)
    ensures |r| == |infos| && forall i :: 0 <= i < |infos| ==> r[i] == infos[i].dataOffset
  {
    seq(|infos|, i requires 0 <= i < |infos| => infos[i].dataOffset)
  }

  /**
   * `objects` lists the object starts `values` name: strictly ascending,
   * each taken from `values`, and all of them unless every value is
   * `NO_REF`, in which case none is kept.
   */
  predicate ObjectTable(objects: seq<u32>, values: seq<u32>)
  {
    && StrictlySorted(objects)
    && (forall x :: x in objects ==> x in values)
    && ((exists i :: 0 <= i < |values| && values[i] != NO_REF) ==> forall x :: x in values ==> x in objects)
    && ((forall i :: 0 <= i < |values| ==> values[i] == NO_REF) ==> objects == [])
  }

  /** The object starts `dat_file_import` keeps: the values sorted, then deduplicated. */
  function ObjectStarts(values: seq<u32>): (r: seq<u32>)
    ensures ObjectTable(r, values)
  {
    var sorted := SortBy(values, Value);
    SortedByValue(sorted);
    DedupSorted(sorted);
    ObjectStartsOf(values, sorted);
    DedupScan(sorted).0
  }

  /** The deduplicated sorted values form the object table of the unsorted ones. */
  lemma ObjectStartsOf(values: seq<u32>, sorted: seq<u32>)
    requires Sorted(sorted) && multiset(sorted) == multiset(values)
    ensures ObjectTable(DedupScan(sorted).0, values)
  {
    DedupSorted(sorted);
    var kept := DedupScan(sorted).0;
    forall x ensures x in sorted <==> x in values {
      assert x in sorted <==> x in multiset(sorted);
      assert x in values <==> x in multiset(values);
    }
    if exists i :: 0 <= i < |values| && values[i] != NO_REF {
      var i :| 0 <= i < |values| && values[i] != NO_REF;
      assert values[i] in sorted;
      assert sorted[0] != NO_REF by {
        var j :| 0 <= j < |sorted| && sorted[j] == values[i];
        assert sorted[0] <= sorted[j];
      }
    }
    if forall i :: 0 <= i < |values| ==> values[i] == NO_REF {
      if sorted != [] {
        assert sorted[0] in values;
      }
    }
  }

  // ---------------------------------------------------- allocation, bounds

  /** The alignments `align_forward` is written for. */
  predicate PowerOfTwo(n: nat)
    decreases n
  {
    n == 1 || (n > 1 && n % 2 == 0 && PowerOfTwo(n / 2))
  }

  /** `q * k`, as a term a quantifier can be triggered on. */
  function Times(q: nat, k: nat): nat { q * k }

  /** `n` is a multiple of `k`. */
  ghost predicate Multiple(n: nat, k: nat)
  {
    exists q: nat :: n == Times(q, k)
  }

  /**
   * `align_forward`: `ptr` rounded up to a multiple of `align`, with the
   * source's u32 addition. The remainder `ptr & (align - 1)` is written
   * `ptr % align`: the two agree for a power-of-two `align`.
   */
  function AlignForward(ptr: u32, align: u32): (r: u32)
    requires align > 0 && PowerOfTwo(align)
    ensures ptr + align <= U32_LIMIT ==> Multiple(r, align) && ptr <= r < ptr + align
    ensures ptr % align == 0 ==> r == ptr
  {
    var m := ptr % align;
    assert ptr == Times(ptr / align, align) + m;
    if m != 0 then
      assert ptr + (align - m) == Times(ptr / align + 1, align);
      Trunc32(ptr + (align - m))
    else ptr
  }

  /** Aligned to 4, as `dat_obj_alloc` aligns every object. */
  lemma AlignedTo4(ptr: u32)
    requires ptr + 4 <= U32_LIMIT
    ensures PowerOfTwo(4) && AlignForward(ptr, 4) % 4 == 0 && ptr <= AlignForward(ptr, 4) < ptr + 4
  {
    assert PowerOfTwo(1) && PowerOfTwo(2);
    var q: nat :| AlignForward(ptr, 4) == Times(q, 4);
  }

  /**
   * The bounds check of `dat_obj_set_ref` and the `dat_obj_read_*` and
   * `dat_obj_write_*` accessors as written: `ptr + width` is computed in
   * u32 before it is compared with `data_size`.
   */
  predicate InBoundsAsWritten(ptr: u32, width: nat, dataSize: u32)
    requires width <= 4
  {
    !(Trunc32(ptr + width) > dataSize)
  }

  /** The check as written admits an access that ends past the data. */
  lemma AsWrittenAdmitsOverrun()
    ensures InBoundsAsWritten(0xFFFF_FFFC, 4, 8) && 0xFFFF_FFFC + 4 > 8
  {
  }

  /** The check the accessors evidently intend: the access ends inside the data. */
  predicate InBounds(ptr: u32, width: nat, dataSize: nat)
  {
    ptr + width <= dataSize
  }

  /**
   * For an aligned access the two checks disagree at exactly one `ptr`: the
   * one whose sum is 2^32, which wraps to 0 and so passes the u32 check for
   * any data size although the access lies past the data.
   */
  lemma OverrunExactlyAtWrap(ptr: u32, width: nat, dataSize: u32)
    requires width == 1 || width == 2 || width == 4
    requires ptr % width == 0
    ensures InBoundsAsWritten(ptr, width, dataSize) && !InBounds(ptr, width, dataSize) <==> ptr + width == U32_LIMIT
  {
    if ptr + width >= U32_LIMIT {
      assert ptr + width == U32_LIMIT;
    }
  }

  /** The two checks agree wherever the u32 sum does not wrap, and only the intended one keeps every access inside the data. */
  lemma InBoundsAgrees(ptr: u32, width: nat, dataSize: u32)
    requires width <= 4
    ensures ptr + width < U32_LIMIT ==> (InBounds(ptr, width, dataSize) <==> InBoundsAsWritten(ptr, width, dataSize))
    ensures InBoundsAsWritten(ptr, width, dataSize) && !InBounds(ptr, width, dataSize) ==> ptr + width >= U32_LIMIT
    ensures ptr + width >= U32_LIMIT ==> !InBounds(ptr, width, dataSize)
  {
  }
}
