/**
 * `DatFile` of the Rust codec (src/lib.rs) as an object whose fields the
 * operations update in place. Every method is proved against the value-level
 * definitions of module RsFormat and RelocBitmap: `import` against
 * `ImportOf`, `export` against `ExportOf`, the mutators against `SetRef`,
 * `RemoveRef`, `AllocOf`, `SymbolsAfterAdd` and `WriteU32`.
 */
module RsDatFile {

  import opened Wrappers
  import opened Bytes
  import opened RelocBitmap
  import opened RsFormat

  // ---------------------------------------------------------------- loops of `import`

  /** One more offset of the list decodes by marking its bit, or fails if its chunk is missing. */
  lemma DecodeNext(offsets: seq<nat>, i: nat, chunks: nat, bm: Bitmap)
    requires i < |offsets| && Decode(offsets[..i], chunks) == Some(bm)
    ensures Decode(offsets[..i + 1], chunks)
      == if ChunkOf(offsets[i]) < |bm| then Some(Mark(bm, offsets[i])) else None
  {
    assert offsets[..i + 1][..i] == offsets[..i];
  }

  /**
   * The relocation loop of `import`: start from `ceil(data_size / 256)`
   * clear chunks and set the bit of each listed offset in turn. An offset
   * whose chunk is missing makes the source panic on the index; the result
   * is then `None`.
   */
  method DecodeRelocations(file: seq<byte>, at: nat, n: nat, chunks: nat) returns (r: Option<Bitmap>)
    requires at + 4 * n <= |file|
    ensures r == Decode(ReadWords(file, at, n), chunks)
  {
    ghost var offsets := ReadWords(file, at, n);
    var relocation := ZeroBitmap(chunks);
    assert offsets[..0] == [];
    var i := 0;
    while i < n
      invariant i <= n
      invariant Decode(offsets[..i], chunks) == Some(relocation)
    {
      var offset := Bytes.ReadU32(file, at + 4 * i);
      var wordIdx := offset / 4;
      var relocIdx := wordIdx / BITS_PER_CHUNK;
      var bitIdx := wordIdx % BITS_PER_CHUNK;
      DecodeNext(offsets, i, chunks, relocation);
      if relocIdx >= |relocation| {
        DecodeFails(offsets, chunks);
        return None;
      }
      relocation := relocation[relocIdx := relocation[relocIdx][bitIdx := true]];
      i := i + 1;
    }
    assert offsets[..n] == offsets;
    return Some(relocation);
  }

  /** The root or extern-ref loop of `import`: `n` pairs of words read from `at`. */
  method ReadTable(file: seq<byte>, at: nat, n: nat) returns (es: seq<Entry>)
    requires at + 8 * n <= |file|
    ensures es == ReadEntries(file, at, n)
  {
    es := [];
    var i := 0;
    while i < n
      invariant i <= n && |es| == i
      invariant forall k :: 0 <= k < i ==> es[k] == Entry(Bytes.ReadU32(file, at + 8 * k), Bytes.ReadU32(file, at + 8 * k + 4))
    {
      es := es + [Entry(Bytes.ReadU32(file, at + 8 * i), Bytes.ReadU32(file, at + 8 * i + 4))];
      i := i + 1;
    }
  }

  /**
   * The checks and loops of `import`, in the order of the source. The
   * source's last check, that the symbol table starts within the file, can
   * no longer fail once the extern-ref table fits, so it has no branch here.
   */
  method ImportValue(file: seq<byte>) returns (r: Result<Dat, DatError>)
    ensures r == ImportOf(file)
  {
    if |file| < HEADER_SIZE {
      ImportRejectsHeader(file);
      return Failure(InvalidFile);
    }
    var fileSize: nat := Field(file, 0);
    var dataSize: nat := Field(file, 1);
    var relocCount: nat := Field(file, 2);
    var rootCount: nat := Field(file, 3);
    var refCount: nat := Field(file, 4);
    if fileSize != |file| {
      ImportRejectsHeader(file);
      return Failure(InvalidFile);
    }
    if HEADER_SIZE + dataSize > |file| {
      ImportPanicsOnData(file);
      return Failure(Panic);
    }
    var data := file[HEADER_SIZE..HEADER_SIZE + dataSize];
    var relocOffset := RelocAt(file);
    if fileSize < relocOffset + relocCount * 4 {
      ImportRejectsRelocations(file);
      return Failure(InvalidFile);
    }
    var decoded := DecodeRelocations(file, relocOffset, relocCount, CeilDiv(dataSize, BYTES_PER_CHUNK));
    if decoded.None? {
      ImportPanicsOnRelocation(file);
      return Failure(Panic);
    }
    var relocation := decoded.value;
    var rootOffset := RootAt(file);
    if fileSize < rootOffset + rootCount * 8 {
      ImportRejectsRoots(file);
      return Failure(InvalidFile);
    }
    var roots := ReadTable(file, rootOffset, rootCount);
    var refOffset := RefAt(file);
    if fileSize < refOffset + refCount * 8 {
      ImportRejectsRefs(file);
      return Failure(InvalidFile);
    }
    var externRefs := ReadTable(file, refOffset, refCount);
    var symbolOffset := SectionsEnd(file);
    var symbols := file[symbolOffset..fileSize];
    r := Success(Dat(data, relocation, roots, externRefs, symbols));
    ImportSections(file);
  }

  // ---------------------------------------------------------------- loops of `export`

  /** `push_u32` of every element of `t`, in order. */
  method PushWords(file: seq<byte>, t: seq<nat>) returns (out: seq<byte>)
    requires AllU32(t)
    ensures out == file + Words(t)
  {
    out := file;
    var i := 0;
    assert t[..0] == [];
    while i < |t|
      invariant i <= |t| && AllU32(t[..i])
      invariant out == file + Words(t[..i])
    {
      PushWord(t[..i], t[i]);
      assert t[..i + 1] == t[..i] + [t[i]];
      Assoc(file, Words(t[..i]), BE32(t[i]), out + BE32(t[i]));
      out := out + BE32(t[i]);
      i := i + 1;
    }
    assert t[..|t|] == t;
  }

  /** The offsets of the first `i + 1` chunks are those of the first `i`, then chunk `i`'s. */
  lemma TargetsNext(bm: Bitmap, i: nat)
    requires i < |bm|
    ensures Targets(bm[..i + 1]) == Targets(bm[..i]) + ChunkTargets(bm[i], i, BITS_PER_CHUNK)
  {
    assert bm[..i + 1][..i] == bm[..i];
  }

  /** An offset built from a chunk index below `MAX_CHUNKS` and a bit fits a u32. */
  lemma TargetFits(i: nat, b: nat)
    requires i < MAX_CHUNKS && b < BITS_PER_CHUNK
    ensures (i * 64 + b) * 4 < U32_LIMIT
  {
  }

  /** One more bit of a chunk adds its offset when it is set. */
  lemma ChunkTargetsNext(m: Chunk, i: nat, b: nat)
    requires b < BITS_PER_CHUNK
    ensures ChunkTargets(m, i, b + 1) == ChunkTargets(m, i, b) + if m[b] then [(i * 64 + b) * 4] else []
  {
  }

  /** The inner relocation loop of `export`: push the offset of each set bit of chunk `i`. */
  method PushChunk(file: seq<byte>, mask: Chunk, i: nat) returns (out: seq<byte>)
    requires i < MAX_CHUNKS
    ensures AllU32(ChunkTargets(mask, i, BITS_PER_CHUNK))
    ensures out == file + Words(ChunkTargets(mask, i, BITS_PER_CHUNK))
  {
    out := file;
    var b := 0;
    while b < BITS_PER_CHUNK
      invariant b <= BITS_PER_CHUNK && AllU32(ChunkTargets(mask, i, b))
      invariant out == file + Words(ChunkTargets(mask, i, b))
    {
      ChunkTargetsNext(mask, i, b);
      if mask[b] {
        var target := (i * 64 + b) * 4;
        TargetFits(i, b);
        PushWord(ChunkTargets(mask, i, b), target);
        Assoc(file, Words(ChunkTargets(mask, i, b)), BE32(target), out + BE32(target));
        out := out + BE32(target);
      } else {
        assert ChunkTargets(mask, i, b + 1) == ChunkTargets(mask, i, b);
      }
      b := b + 1;
    }
  }

  /**
   * The relocation loops of `export`: for each chunk `i` and each bit `b`
   * from 0 to 63 that is set, push the offset `(i * 64 + b) * 4`.
   */
  method PushRelocations(file: seq<byte>, bm: Bitmap) returns (out: seq<byte>)
    requires |bm| <= MAX_CHUNKS
    ensures AllU32(Targets(bm)) && out == file + Words(Targets(bm))
  {
    out := file;
    var i := 0;
    assert bm[..0] == [];
    while i < |bm|
      invariant i <= |bm| && AllU32(Targets(bm[..i]))
      invariant out == file + Words(Targets(bm[..i]))
    {
      ghost var acc := Targets(bm[..i]);
      ghost var chunk := ChunkTargets(bm[i], i, BITS_PER_CHUNK);
      out := PushChunk(out, bm[i], i);
      TargetsNext(bm, i);
      WordsAppend(acc, chunk);
      Assoc(file, Words(acc), Words(chunk), out);
      i := i + 1;
    }
    assert bm[..|bm|] == bm;
  }

  /** The root or extern-ref loop of `export`: push each pair's two words. */
  method PushTable(file: seq<byte>, es: seq<Entry>) returns (out: seq<byte>)
    ensures out == file + Words(EntryWords(es))
  {
    out := file;
    var i := 0;
    assert es[..0] == [];
    while i < |es|
      invariant i <= |es| && out == file + Words(EntryWords(es[..i]))
    {
      ghost var w := EntryWords(es[..i]);
      EntryWordsNext(es, i);
      PushWord(w, es[i].objOffset);
      PushWord(w + [es[i].objOffset as nat], es[i].symbolOffset);
      assert w + [es[i].objOffset as nat] + [es[i].symbolOffset as nat] == EntryWords(es[..i + 1]);
      Assoc(file, Words(w), BE32(es[i].objOffset), out + BE32(es[i].objOffset));
      out := out + BE32(es[i].objOffset);
      Assoc(file, Words(w + [es[i].objOffset as nat]), BE32(es[i].symbolOffset), out + BE32(es[i].symbolOffset));
      out := out + BE32(es[i].symbolOffset);
      i := i + 1;
    }
    assert es[..|es|] == es;
  }

  /** The words of one more pair are those of the pairs before it, then its two words. */
  lemma EntryWordsNext(es: seq<Entry>, i: nat)
    requires i < |es|
    ensures EntryWords(es[..i + 1]) == EntryWords(es[..i]) + [es[i].objOffset as nat, es[i].symbolOffset as nat]
  {
    EntryWordsAppend(es[..i], [es[i]]);
    assert es[..i] + [es[i]] == es[..i + 1];
  }

  lemma {:induction false} EntryWordsAppend(a: seq<Entry>, b: seq<Entry>)
    ensures EntryWords(a + b) == EntryWords(a) + EntryWords(b)
  {
    if a == [] {
      assert a + b == b;
    } else {
      assert (a + b)[0] == a[0];
      assert (a + b)[1..] == a[1..] + b;
      EntryWordsAppend(a[1..], b);
    }
  }

  // ---------------------------------------------------------------- the object

  /** `DatFile`: the data section, its relocation bitmap, roots, extern refs and symbol table. */
  class DatFile {
    var data: seq<byte>
    var relocation: Bitmap
    var roots: seq<Root>
    var externRefs: seq<Ref>
    var symbols: seq<byte>

    /** The value the object holds. */
    function Value(): (d: Dat)
      reads this
      ensures d.data == data && d.relocation == relocation && d.roots == roots
      ensures d.externRefs == externRefs && d.symbols == symbols
    {
      Dat(data, relocation, roots, externRefs, symbols)
    }

    /**
     * The bitmap has at most `MAX_CHUNKS` chunks, enough for every u32
     * offset: `import` and every mutator keep this, and `export` needs it.
     */
    predicate Valid()
      reads this
    {
      |relocation| <= MAX_CHUNKS
    }

    /** `DatFile::new`: everything empty. */
    constructor ()
      ensures Value() == Dat([], [], [], [], []) && Valid()
    {
      data, relocation, roots, externRefs, symbols := [], [], [], [], [];
    }

    /** The struct literal `DatFile { data, relocation, roots, extern_refs, symbols }`. */
    constructor Of(d: Dat)
      ensures Value() == d
      ensures |d.relocation| <= MAX_CHUNKS ==> Valid()
    {
      data, relocation, roots, externRefs, symbols := d.data, d.relocation, d.roots, d.externRefs, d.symbols;
    }

    /**
     * `DatFile::import`: it fails exactly when `ImportOf` does, with the same
     * error, and otherwise returns a new object holding `ImportOf`'s value.
     */
    static method Import(file: seq<byte>) returns (r: Result<DatFile, DatError>)
      ensures r.Failure? <==> ImportOf(file).Failure?
      ensures r.Failure? ==> r.error == ImportOf(file).error
      ensures r.Success? ==> fresh(r.value) && r.value.Value() == ImportOf(file).value && r.value.Valid()
    {
      var v := ImportValue(file);
      if v.Failure? {
        return Failure(v.error);
      }
      ImportFits(file);
      ChunksFit(Field(file, 1));
      var d := new DatFile.Of(v.value);
      return Success(d);
    }

    /** `count_relocation_entries`: the sum of `count_ones` over the chunks. */
    method CountRelocationEntries() returns (count: u32)
      requires Valid()
      ensures count == TotalOnes(relocation, |relocation|)
    {
      var c: nat := 0;
      var i := 0;
      while i < |relocation|
        invariant i <= |relocation| && c == TotalOnes(relocation, i)
      {
        c := c + CountOnes(relocation[i], BITS_PER_CHUNK);
        i := i + 1;
      }
      TotalOnesBound(relocation, |relocation|);
      count := c;
    }

    /**
     * `DatFile::export`: header, data, relocation list, root and extern-ref
     * tables, symbols; it always succeeds, with the bytes `ExportOf` describes.
     */
    method Export() returns (r: Result<seq<byte>, DatError>)
      requires Valid()
      ensures r == Success(ExportOf(Value()))
    {
      var relocationEntries := CountRelocationEntries();
      var fileSize: nat := HEADER_SIZE + |data| + (relocationEntries as nat) * 4 + |roots| * 8 + |externRefs| * 8 + |symbols|;
      var header := [Trunc32(fileSize), Trunc32(|data|), relocationEntries, Trunc32(|roots|), Trunc32(|externRefs|), 0, 0, 0];
      assert header == HeaderWords(Value());
      var file := PushWords([], header);
      file := file + data;
      file := PushRelocations(file, relocation);
      file := PushTable(file, roots);
      file := PushTable(file, externRefs);
      file := file + symbols;
      assert [] + Words(header) == Words(header);
      return Success(file);
    }

    /**
     * `object_alloc(size)` as written (`AllocOf`): pads an unaligned buffer
     * to `(len & 3) + 4` bytes, then appends `size` zero bytes and returns
     * the offset they start at.
     */
    method ObjectAlloc(size: u32) returns (offset: u32)
      modifies this
      ensures (data, offset) == AllocOf(old(data), size)
      ensures relocation == old(relocation) && roots == old(roots)
      ensures externRefs == old(externRefs) && symbols == old(symbols)
    {
      if |data| % 4 != 0 {
        var alignedLen := |data| % 4 + 4;
        data := Resize(data, alignedLen);
      }
      offset := Trunc32(|data|);
      data := Resize(data, |data| + size);
    }

    /** `ref_set(at, to)`: store `to` at `at` and set the bit of `at`, growing the bitmap. */
    method RefSet(at: u32, to: u32)
      requires at % 4 == 0 && at + 4 <= |data|
      modifies this
      ensures data == Bytes.WriteU32(old(data), at, to)
      ensures relocation == SetRef(old(relocation), at)
      ensures roots == old(roots) && externRefs == old(externRefs) && symbols == old(symbols)
      ensures old(Valid()) ==> Valid()
    {
      data := Bytes.WriteU32(data, at, to);
      var wordIdx := at / 4;
      var relocIdx := wordIdx / BITS_PER_CHUNK;
      var bitIdx := wordIdx % BITS_PER_CHUNK;
      if |relocation| <= relocIdx {
        relocation := GrowTo(relocation, relocIdx + 1);
      }
      relocation := relocation[relocIdx := relocation[relocIdx][bitIdx := true]];
    }

    /** `ref_remove(at)`: clear the bit of `at`, growing the bitmap; the data is untouched. */
    method RefRemove(at: u32)
      requires at % 4 == 0
      modifies this
      ensures relocation == RemoveRef(old(relocation), at)
      ensures data == old(data) && roots == old(roots) && externRefs == old(externRefs) && symbols == old(symbols)
      ensures old(Valid()) ==> Valid()
    {
      var wordIdx := at / 4;
      var relocIdx := wordIdx / BITS_PER_CHUNK;
      var bitIdx := wordIdx % BITS_PER_CHUNK;
      if |relocation| <= relocIdx {
        relocation := GrowTo(relocation, relocIdx + 1);
      }
      var prevMask := relocation[relocIdx];
      relocation := relocation[relocIdx := prevMask[bitIdx := false]];
    }

    /**
     * `ref_check(at)`, with the bitmap's length cast `as u32` before the
     * comparison, as the source does; it agrees with `CheckRef` on every
     * bitmap shorter than 2^32 chunks.
     */
    predicate RefCheck(at: u32)
      requires at % 4 == 0
      reads this
      ensures |relocation| < U32_LIMIT ==> (RefCheck(at) <==> CheckRef(relocation, at))
    {
      var wordIdx := at / 4;
      var relocIdx := wordIdx / BITS_PER_CHUNK;
      var bitIdx := wordIdx % BITS_PER_CHUNK;
      if Trunc32(|relocation|) <= relocIdx then false else relocation[relocIdx][bitIdx]
    }

    /**
     * `symbol_add(symbol)`: appends the symbol and, unless it already ends
     * in one, a NUL; returns the old length of the table.
     */
    method SymbolAdd(symbol: seq<byte>) returns (offset: u32)
      requires IsAscii(symbol)
      modifies this
      ensures symbols == SymbolsAfterAdd(old(symbols), symbol) && offset == Trunc32(|old(symbols)|)
      ensures data == old(data) && relocation == old(relocation) && roots == old(roots) && externRefs == old(externRefs)
    {
      offset := Trunc32(|symbols|);
      symbols := symbols + symbol;
      if !(|symbol| > 0 && symbol[|symbol| - 1] == 0) {
        symbols := symbols + [0];
      }
    }

    /** `symbol_read(at)`: the NUL-terminated symbol at `at`, `None` if it is not ASCII. */
    function SymbolRead(at: u32): (r: Option<seq<byte>>)
      requires at <= |symbols| && Terminated(symbols, at)
      reads this
      ensures r.Some? ==> at + |r.value| < |symbols| && symbols[at..at + |r.value|] == r.value
      ensures r.Some? ==> symbols[at + |r.value|] == 0 && IsAscii(r.value) && 0 !in r.value
    {
      RsFormat.SymbolRead(symbols, at)
    }

    /** `read_u32(at)`: the big-endian word at a 4-aligned offset of the data. */
    function ReadU32(at: u32): (r: u32)
      requires at % 4 == 0 && at + 4 <= |data|
      reads this
      ensures BE32(r) == data[at..at + 4]
    {
      ReadU32Bytes(data, at);
      Bytes.ReadU32(data, at)
    }

    /** `write_u32(at, n)`: store `n` big-endian at a 4-aligned offset of the data. */
    method WriteU32(at: u32, n: u32)
      requires at % 4 == 0 && at + 4 <= |data|
      modifies this
      ensures data == Bytes.WriteU32(old(data), at, n)
      ensures relocation == old(relocation) && roots == old(roots) && externRefs == old(externRefs) && symbols == old(symbols)
    {
      data := Bytes.WriteU32(data, at, n);
    }

    /** `read_u16(at)`: the big-endian half-word at a 2-aligned offset of the data. */
    function ReadU16(at: u32): (r: u16)
      requires at % 2 == 0 && at + 2 <= |data|
      reads this
      ensures BE16(r) == data[at..at + 2]
    {
      ReadU16Bytes(data, at);
      Bytes.ReadU16(data, at)
    }

    /** `write_u16(at, n)`: store `n` big-endian at a 2-aligned offset of the data. */
    method WriteU16(at: u32, n: u16)
      requires at % 2 == 0 && at + 2 <= |data|
      modifies this
      ensures data == Bytes.WriteU16(old(data), at, n)
      ensures relocation == old(relocation) && roots == old(roots) && externRefs == old(externRefs) && symbols == old(symbols)
    {
      data := Bytes.WriteU16(data, at, n);
    }
  }
}
