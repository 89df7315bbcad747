/**
 * The relocation bitmap of the Rust codec (`DatFile::relocation` in src/lib.rs):
 * one bit per 4-byte word of the data section, packed 64 words to a `u64`
 * chunk. Word `w` lives in chunk `w / 64` at bit `w % 64`.
 *
 * A chunk is represented by its 64 bits, bit `b` being element `b`; the masks
 * `1 << b` of the source become indexing, `|=` becomes setting an element and
 * `& !` clearing one.
 */
module RelocBitmap {

  import opened Wrappers

  const BITS_PER_CHUNK: nat := 64
  /** Bytes of data covered by one chunk (64 words of 4 bytes). */
  const BYTES_PER_CHUNK: nat := 256

  type Chunk = s: seq<bool> | |s| == BITS_PER_CHUNK witness seq(BITS_PER_CHUNK, _ => false)
  type Bitmap = seq<Chunk>

  /** The all-zero chunk `0u64`. */
  function EmptyChunk(): (c: Chunk)
    ensures forall b :: 0 <= b < BITS_PER_CHUNK ==> !c[b]
  {
    seq(BITS_PER_CHUNK, _ => false)
  }

  /** `vec![0u64; n]`. */
  function ZeroBitmap(n: nat): (bm: Bitmap)
    ensures |bm| == n
    ensures forall c :: 0 <= c < n ==> bm[c] == EmptyChunk()
  {
    seq(n, _ => EmptyChunk())
  }

  /** `ceil(n / d)` (`usize::div_ceil`). */
  function CeilDiv(n: nat, d: nat): (r: nat)
    requires d > 0
    ensures r * d >= n && (r == 0 || (r - 1) * d < n)
  {
    (n + d - 1) / d
  }

  /** The chunk that holds the bit of byte offset `o`. */
  function ChunkOf(o: nat): nat { o / 4 / BITS_PER_CHUNK }

  /** The bit within its chunk of byte offset `o`. */
  function BitOf(o: nat): nat { (o / 4) % BITS_PER_CHUNK }

  /** Whether the bit of word `w` is set; words beyond the bitmap are clear. */
  predicate HasWord(bm: Bitmap, w: nat)
  {
    w / BITS_PER_CHUNK < |bm| && bm[w / BITS_PER_CHUNK][w % BITS_PER_CHUNK]
  }

  /** `relocation[chunk] |= 1 << bit` for the word of offset `o`. */
  function Mark(bm: Bitmap, o: nat): (r: Bitmap)
    requires ChunkOf(o) < |bm|
    ensures |r| == |bm|
  {
    bm[ChunkOf(o) := bm[ChunkOf(o)][BitOf(o) := true]]
  }

  /** `relocation[chunk] &= !(1 << bit)` for the word of offset `o`. */
  function Unmark(bm: Bitmap, o: nat): (r: Bitmap)
    requires ChunkOf(o) < |bm|
    ensures |r| == |bm|
  {
    bm[ChunkOf(o) := bm[ChunkOf(o)][BitOf(o) := false]]
  }

  /** `relocation.resize(n, 0u64)` when the bitmap is shorter than `n`. */
  function GrowTo(bm: Bitmap, n: nat): (r: Bitmap)
    ensures |r| == if |bm| >= n then |bm| else n
    ensures r[..|bm|] == bm
    ensures forall c :: |bm| <= c < |r| ==> r[c] == EmptyChunk()
  {
    if |bm| >= n then bm else bm + ZeroBitmap(n - |bm|)
  }

  /** The bitmap part of `ref_set(at, _)`: grow to cover `at`, then set its bit. */
  function SetRef(bm: Bitmap, at: nat): (r: Bitmap)
  {
    Mark(GrowTo(bm, ChunkOf(at) + 1), at)
  }

  /** `ref_remove(at)`: grow to cover `at`, then clear its bit. */
  function RemoveRef(bm: Bitmap, at: nat): (r: Bitmap)
  {
    Unmark(GrowTo(bm, ChunkOf(at) + 1), at)
  }

  /** `ref_check(at)`: the bit of `at`, false for offsets beyond the bitmap. */
  predicate CheckRef(bm: Bitmap, at: nat)
  {
    HasWord(bm, at / 4)
  }

  // ---------------------------------------------------------------- arithmetic

  /** A word index splits uniquely into chunk and bit. */
  lemma WordSplit(c: nat, b: nat)
    requires b < BITS_PER_CHUNK
    ensures (c * 64 + b) / 64 == c && (c * 64 + b) % 64 == b
    ensures ((c * 64 + b) * 4) / 4 == c * 64 + b && ((c * 64 + b) * 4) % 4 == 0
  {
  }

  /** A 4-aligned offset is four times its word. */
  lemma AlignedWord(x: nat)
    requires x % 4 == 0
    ensures x == (x / 4) * 4
  {
  }

  // ---------------------------------------------------------------- mutation

  /** Setting a word's bit sets exactly that bit. */
  lemma MarkBits(bm: Bitmap, o: nat, w: nat)
    requires ChunkOf(o) < |bm|
    ensures HasWord(Mark(bm, o), w) <==> (w == o / 4 || HasWord(bm, w))
  {
    var r := Mark(bm, o);
    if w / 64 == ChunkOf(o) && w % 64 == BitOf(o) {
      assert w == (w / 64) * 64 + w % 64;
      assert o / 4 == (o / 4 / 64) * 64 + (o / 4) % 64;
    }
  }

  /** Clearing a word's bit clears exactly that bit. */
  lemma UnmarkBits(bm: Bitmap, o: nat, w: nat)
    requires ChunkOf(o) < |bm|
    ensures HasWord(Unmark(bm, o), w) <==> (w != o / 4 && HasWord(bm, w))
  {
    if w / 64 == ChunkOf(o) && w % 64 == BitOf(o) {
      assert w == (w / 64) * 64 + w % 64;
      assert o / 4 == (o / 4 / 64) * 64 + (o / 4) % 64;
    }
  }

  /** Growing adds only clear chunks. */
  lemma GrowBits(bm: Bitmap, n: nat, w: nat)
    ensures HasWord(GrowTo(bm, n), w) == HasWord(bm, w)
  {
  }

  /**
   * `ref_set(at, _)` makes `ref_check(at)` true, leaves every other word's
   * bit as it was and grows the bitmap to at least `at / 256 + 1` chunks.
   */
  lemma SetRefSpec(bm: Bitmap, at: nat, x: nat)
    ensures CheckRef(SetRef(bm, at), at)
    ensures x / 4 != at / 4 ==> CheckRef(SetRef(bm, at), x) == CheckRef(bm, x)
    ensures |SetRef(bm, at)| == if |bm| > at / BYTES_PER_CHUNK then |bm| else at / BYTES_PER_CHUNK + 1
  {
    var g := GrowTo(bm, ChunkOf(at) + 1);
    MarkBits(g, at, at / 4);
    MarkBits(g, at, x / 4);
    GrowBits(bm, ChunkOf(at) + 1, x / 4);
  }

  /**
   * `ref_remove(at)` makes `ref_check(at)` false, leaves every other word's
   * bit as it was and grows the bitmap to at least `at / 256 + 1` chunks.
   */
  lemma RemoveRefSpec(bm: Bitmap, at: nat, x: nat)
    ensures !CheckRef(RemoveRef(bm, at), at)
    ensures x / 4 != at / 4 ==> CheckRef(RemoveRef(bm, at), x) == CheckRef(bm, x)
    ensures |RemoveRef(bm, at)| == if |bm| > at / BYTES_PER_CHUNK then |bm| else at / BYTES_PER_CHUNK + 1
  {
    var g := GrowTo(bm, ChunkOf(at) + 1);
    UnmarkBits(g, at, at / 4);
    UnmarkBits(g, at, x / 4);
    GrowBits(bm, ChunkOf(at) + 1, x / 4);
  }

  /** Two bitmaps of one length that agree on every word are equal. */
  lemma BitmapExt(a: Bitmap, b: Bitmap)
    requires |a| == |b|
    requires forall w :: HasWord(a, w) == HasWord(b, w)
    ensures a == b
  {
    forall c | 0 <= c < |a|
      ensures a[c] == b[c]
    {
      forall k | 0 <= k < BITS_PER_CHUNK
        ensures a[c][k] == b[c][k]
      {
        WordSplit(c, k);
        assert HasWord(a, c * 64 + k) == HasWord(b, c * 64 + k);
      }
    }
  }

  // ---------------------------------------------------------------- decoding (import)

  /** Some listed offset lies in word `w`. */
  predicate Lists(offsets: seq<nat>, w: nat)
  {
    exists k :: 0 <= k < |offsets| && offsets[k] / 4 == w
  }

  /**
   * The bitmap built by `import` from the listed relocation offsets, OR-ing
   * the bit of each offset into a bitmap of `chunks` zero chunks in list
   * order. `None` when the code indexes past the bitmap (a panic).
   */
  function Decode(offsets: seq<nat>, chunks: nat): (r: Option<Bitmap>)
    ensures r.Some? ==> |r.value| == chunks
  {
    if offsets == [] then Some(ZeroBitmap(chunks))
    else
      var o := offsets[|offsets| - 1];
      match Decode(offsets[..|offsets| - 1], chunks)
      case None => None
      case Some(bm) => if ChunkOf(o) < |bm| then Some(Mark(bm, o)) else None
  }

  /** Decoding fails exactly when some offset's chunk lies beyond `chunks`. */
  lemma {:induction false} DecodeFails(offsets: seq<nat>, chunks: nat)
    ensures Decode(offsets, chunks).None? <==> exists k :: 0 <= k < |offsets| && ChunkOf(offsets[k]) >= chunks
  {
    if offsets != [] {
      var init := offsets[..|offsets| - 1];
      DecodeFails(init, chunks);
      if exists k :: 0 <= k < |init| && ChunkOf(init[k]) >= chunks {
        var k :| 0 <= k < |init| && ChunkOf(init[k]) >= chunks;
        assert offsets[k] == init[k];
      }
      if exists k :: 0 <= k < |offsets| && ChunkOf(offsets[k]) >= chunks {
        var k :| 0 <= k < |offsets| && ChunkOf(offsets[k]) >= chunks;
        if k < |init| { assert init[k] == offsets[k]; }
      }
    }
  }

  /**
   * A decoded bitmap has a word's bit set exactly when some listed offset
   * lies in that word: duplicates collapse and nothing else is set.
   */
  lemma {:induction false} DecodeBits(offsets: seq<nat>, chunks: nat, w: nat)
    requires Decode(offsets, chunks).Some?
    ensures HasWord(Decode(offsets, chunks).value, w) <==> Lists(offsets, w)
  {
    if offsets == [] {
    } else {
      var init := offsets[..|offsets| - 1];
      var o := offsets[|offsets| - 1];
      DecodeBits(init, chunks, w);
      var bm := Decode(init, chunks).value;
      MarkBits(bm, o, w);
      if Lists(init, w) {
        var k :| 0 <= k < |init| && init[k] / 4 == w;
        assert offsets[k] == init[k];
      }
      if Lists(offsets, w) {
        var k :| 0 <= k < |offsets| && offsets[k] / 4 == w;
        if k < |init| { assert init[k] == offsets[k]; }
      }
    }
  }

  // ---------------------------------------------------------------- encoding (export)

  /** The offsets `export` emits for bits `0 .. n` of chunk `m`, which is chunk `i`. */
  function ChunkTargets(m: Chunk, i: nat, n: nat): seq<nat>
    requires n <= BITS_PER_CHUNK
  {
    if n == 0 then []
    else ChunkTargets(m, i, n - 1) + (if m[n - 1] then [(i * 64 + n - 1) * 4] else [])
  }

  /** Every relocation offset `export` writes, chunk by chunk, bits 0 -> 63. */
  function Targets(bm: Bitmap): seq<nat>
  {
    if bm == [] then [] else Targets(bm[..|bm| - 1]) + ChunkTargets(bm[|bm| - 1], |bm| - 1, BITS_PER_CHUNK)
  }

  /** `u64::count_ones` over bits `0 .. n`. */
  function CountOnes(m: Chunk, n: nat): nat
    requires n <= BITS_PER_CHUNK
  {
    if n == 0 then 0 else CountOnes(m, n - 1) + (if m[n - 1] then 1 else 0)
  }

  /** The sum of `count_ones` over the first `n` chunks. */
  function TotalOnes(bm: Bitmap, n: nat): nat
    requires n <= |bm|
  {
    if n == 0 then 0 else TotalOnes(bm, n - 1) + CountOnes(bm[n - 1], BITS_PER_CHUNK)
  }

  /** Strictly ascending, hence free of duplicates. */
  predicate Increasing(s: seq<nat>)
  {
    forall j, k :: 0 <= j < k < |s| ==> s[j] < s[k]
  }

  /** The members of one chunk's offsets are the aligned offsets of its set bits below `n`. */
  lemma {:induction false} ChunkTargetsMembers(m: Chunk, i: nat, n: nat, x: nat)
    requires n <= BITS_PER_CHUNK
    ensures x in ChunkTargets(m, i, n) <==>
      x % 4 == 0 && (x / 4) / 64 == i && (x / 4) % 64 < n && m[(x / 4) % 64]
  {
    if n > 0 {
      ChunkTargetsMembers(m, i, n - 1, x);
      WordSplit(i, n - 1);
      if x % 4 == 0 && (x / 4) / 64 == i && (x / 4) % 64 == n - 1 {
        AlignedWord(x);
        assert x / 4 == i * 64 + (n - 1);
      }
    }
  }

  /** One chunk's offsets ascend and lie between `256 * i` and `256 * i + 4 * n`. */
  lemma {:induction false} ChunkTargetsOrdered(m: Chunk, i: nat, n: nat)
    requires n <= BITS_PER_CHUNK
    ensures Increasing(ChunkTargets(m, i, n))
    ensures forall x :: x in ChunkTargets(m, i, n) ==> i * 256 <= x < i * 256 + 4 * n
  {
    if n > 0 {
      var prev := ChunkTargets(m, i, n - 1);
      ChunkTargetsOrdered(m, i, n - 1);
      if m[n - 1] {
        IncreasingConcat(prev, [(i * 64 + n - 1) * 4]);
      } else {
        assert ChunkTargets(m, i, n) == prev + [];
      }
    }
  }

  /** Offsets of chunk `i` number `count_ones` of that chunk. */
  lemma {:induction false} ChunkTargetsCount(m: Chunk, i: nat, n: nat)
    requires n <= BITS_PER_CHUNK
    ensures |ChunkTargets(m, i, n)| == CountOnes(m, n)
  {
    if n > 0 {
      ChunkTargetsCount(m, i, n - 1);
    }
  }

  /** `export` writes exactly `count_relocation_entries()` relocation offsets. */
  lemma {:induction false} TargetsCount(bm: Bitmap)
    ensures |Targets(bm)| == TotalOnes(bm, |bm|)
  {
    if bm != [] {
      var init := bm[..|bm| - 1];
      TargetsCount(init);
      ChunkTargetsCount(bm[|bm| - 1], |bm| - 1, BITS_PER_CHUNK);
      assert TotalOnes(bm, |bm| - 1) == TotalOnes(init, |init|) by {
        TotalOnesPrefix(bm, init, |init|);
      }
    }
  }

  /** `TotalOnes` over a prefix depends only on that prefix. */
  lemma {:induction false} TotalOnesPrefix(bm: Bitmap, p: Bitmap, n: nat)
    requires n <= |p| <= |bm| && p == bm[..|p|]
    ensures TotalOnes(bm, n) == TotalOnes(p, n)
  {
    if n > 0 {
      TotalOnesPrefix(bm, p, n - 1);
      assert bm[n - 1] == p[n - 1];
    }
  }

  /** The exported offsets are exactly the 4-aligned offsets whose bit is set. */
  lemma {:induction false} TargetsMembers(bm: Bitmap, x: nat)
    ensures x in Targets(bm) <==> x % 4 == 0 && HasWord(bm, x / 4)
  {
    if bm != [] {
      var init := bm[..|bm| - 1];
      var i := |bm| - 1;
      TargetsMembers(init, x);
      ChunkTargetsMembers(bm[i], i, BITS_PER_CHUNK, x);
      assert Targets(bm) == Targets(init) + ChunkTargets(bm[i], i, BITS_PER_CHUNK);
      if (x / 4) / 64 < i {
        assert init[(x / 4) / 64] == bm[(x / 4) / 64];
      }
    }
  }

  /** All exported offsets lie below `256 * |bm|`. */
  lemma {:induction false} TargetsBound(bm: Bitmap)
    ensures forall x :: x in Targets(bm) ==> x < |bm| * BYTES_PER_CHUNK
  {
    forall x | x in Targets(bm)
      ensures x < |bm| * BYTES_PER_CHUNK
    {
      TargetsMembers(bm, x);
    }
  }

  /** Concatenating two ascending runs, the first wholly below the second, ascends. */
  lemma IncreasingConcat(a: seq<nat>, b: seq<nat>)
    requires Increasing(a) && Increasing(b)
    requires forall x, y :: x in a && y in b ==> x < y
    ensures Increasing(a + b)
  {
    var s := a + b;
    forall j, k | 0 <= j < k < |s|
      ensures s[j] < s[k]
    {
      if k < |a| {
        assert s[j] == a[j] && s[k] == a[k];
      } else if j >= |a| {
        assert s[j] == b[j - |a|] && s[k] == b[k - |a|];
      } else {
        assert s[j] == a[j] && s[k] == b[k - |a|];
        assert a[j] in a && b[k - |a|] in b;
      }
    }
  }

  /** The relocation list `export` writes is strictly ascending, hence duplicate-free. */
  lemma {:induction false} TargetsIncreasing(bm: Bitmap)
    ensures Increasing(Targets(bm))
  {
    if bm != [] {
      var init := bm[..|bm| - 1];
      var i := |bm| - 1;
      TargetsIncreasing(init);
      TargetsBound(init);
      ChunkTargetsOrdered(bm[i], i, BITS_PER_CHUNK);
      IncreasingConcat(Targets(init), ChunkTargets(bm[i], i, BITS_PER_CHUNK));
    }
  }

  /** Two ascending sequences with the same members are equal. */
  lemma {:induction false} IncreasingUnique(a: seq<nat>, b: seq<nat>)
    requires Increasing(a) && Increasing(b)
    requires forall x :: x in a <==> x in b
    ensures a == b
  {
    if a != [] { assert a[0] in b; }
    if b != [] { assert b[0] in a; }
    if a != [] {
      var k :| 0 <= k < |b| && b[k] == a[0];
      assert b[0] <= b[k];
      var j :| 0 <= j < |a| && a[j] == b[0];
      assert a[0] <= a[j];
      forall x
        ensures x in a[1..] <==> x in b[1..]
      {
        if x in a[1..] {
          var k :| 1 <= k < |a| && a[k] == x;
          assert a[0] < a[k];
          assert x in b;
          var j :| 0 <= j < |b| && b[j] == x;
          assert j != 0;
          assert b[1..][j - 1] == x;
        }
        if x in b[1..] {
          var k :| 1 <= k < |b| && b[k] == x;
          assert b[0] < b[k];
          assert x in a;
          var j :| 0 <= j < |a| && a[j] == x;
          assert j != 0;
          assert a[1..][j - 1] == x;
        }
      }
      IncreasingUnique(a[1..], b[1..]);
      assert a == [a[0]] + a[1..];
      assert b == [b[0]] + b[1..];
    }
  }

  /**
   * Round trip bitmap -> list -> bitmap: decoding the offsets `export` writes
   * into a bitmap of the same length gives the bitmap back.
   */
  lemma DecodeTargets(bm: Bitmap)
    ensures Decode(Targets(bm), |bm|) == Some(bm)
  {
    var t := Targets(bm);
    TargetsDecodable(bm);
    var d := Decode(t, |bm|).value;
    forall w: nat
      ensures HasWord(d, w) == HasWord(bm, w)
    {
      TargetsWord(bm, w);
    }
    BitmapExt(d, bm);
  }

  /** The offsets `export` writes never index past a bitmap of the same length. */
  lemma TargetsDecodable(bm: Bitmap)
    ensures Decode(Targets(bm), |bm|).Some?
  {
    var t := Targets(bm);
    DecodeFails(t, |bm|);
    if Decode(t, |bm|).None? {
      var k :| 0 <= k < |t| && ChunkOf(t[k]) >= |bm|;
      TargetsMembers(bm, t[k]);
      assert false;
    }
  }

  /** Decoding the exported offsets sets word `w` exactly when `bm` has it set. */
  lemma TargetsWord(bm: Bitmap, w: nat)
    requires Decode(Targets(bm), |bm|).Some?
    ensures HasWord(Decode(Targets(bm), |bm|).value, w) == HasWord(bm, w)
  {
    DecodeBits(Targets(bm), |bm|, w);
    TargetsMembersAll(bm);
    ListsIffWord(Targets(bm), bm, w);
  }

  /** `TargetsMembers` for every offset at once. */
  lemma TargetsMembersAll(bm: Bitmap)
    ensures forall x: nat :: x in Targets(bm) <==> x % 4 == 0 && HasWord(bm, x / 4)
  {
    forall x: nat
      ensures x in Targets(bm) <==> x % 4 == 0 && HasWord(bm, x / 4)
    {
      TargetsMembers(bm, x);
    }
  }

  /** A list holding exactly the aligned offsets of the set words lists exactly those words. */
  lemma ListsIffWord(t: seq<nat>, bm: Bitmap, w: nat)
    requires forall x: nat :: x in t <==> x % 4 == 0 && HasWord(bm, x / 4)
    ensures Lists(t, w) <==> HasWord(bm, w)
  {
    if Lists(t, w) {
      var k :| 0 <= k < |t| && t[k] / 4 == w;
      assert t[k] in t;
    }
    if HasWord(bm, w) {
      assert (w * 4) / 4 == w && (w * 4) % 4 == 0;
      ListsAligned(t, w * 4);
    }
  }

  /** A listed aligned offset puts its word in the list. */
  lemma ListsAligned(t: seq<nat>, x: nat)
    requires x in t && x % 4 == 0
    ensures Lists(t, x / 4)
  {
    var k :| 0 <= k < |t| && t[k] == x;
  }

  /**
   * Round trip list -> bitmap -> list: a strictly ascending list of 4-aligned
   * offsets that decodes without panicking is exactly what `export` writes back.
   */
  lemma TargetsDecode(offsets: seq<nat>, chunks: nat)
    requires Increasing(offsets)
    requires forall k :: 0 <= k < |offsets| ==> offsets[k] % 4 == 0
    requires Decode(offsets, chunks).Some?
    ensures Targets(Decode(offsets, chunks).value) == offsets
  {
    var bm := Decode(offsets, chunks).value;
    var t := Targets(bm);
    forall x: nat
      ensures x in t <==> x in offsets
    {
      TargetsMembers(bm, x);
      DecodeBits(offsets, chunks, x / 4);
      if x in offsets {
        var k :| 0 <= k < |offsets| && offsets[k] == x;
        assert offsets[k] / 4 == x / 4;
      }
      if x % 4 == 0 && Lists(offsets, x / 4) {
        var k :| 0 <= k < |offsets| && offsets[k] / 4 == x / 4;
        AlignedWord(x);
        AlignedWord(offsets[k]);
      }
    }
    TargetsIncreasing(bm);
    IncreasingUnique(t, offsets);
  }

  /** One chunk has at most `n` of its first `n` bits set. */
  lemma {:induction false} CountOnesBound(m: Chunk, n: nat)
    requires n <= BITS_PER_CHUNK
    ensures CountOnes(m, n) <= n
  {
    if n > 0 { CountOnesBound(m, n - 1); }
  }

  /** At most 64 relocation entries per chunk. */
  lemma {:induction false} TotalOnesBound(bm: Bitmap, n: nat)
    requires n <= |bm|
    ensures TotalOnes(bm, n) <= BITS_PER_CHUNK * n
  {
    if n > 0 {
      TotalOnesBound(bm, n - 1);
      CountOnesBound(bm[n - 1], BITS_PER_CHUNK);
    }
  }
}
