/**
 * The Rust codec's file format as values: a `DatFile` is a `Dat`, `import`
 * is `ImportOf` and `export` is `ExportOf`. The imperative methods of the
 * `DatFile` class are proved to compute these; the round trips and the
 * header properties are proved here about the functions.
 *
 * File layout (all integers big-endian u32):
 *   0x00 file_size, 0x04 data_size, 0x08 relocation count, 0x0C root count,
 *   0x10 extern-ref count, 0x14 .. 0x20 zero, then data, the relocation
 *   offsets, the (object, symbol) pairs of the roots and of the extern refs,
 *   and the symbol bytes up to file_size.
 */
module RsFormat {

  import opened Wrappers
  import opened Bytes
  import opened RelocBitmap

  const HEADER_SIZE: nat := 0x20
  /** Chunk indices below this keep `(i * 64 + b) * 4` within a u32. */
  const MAX_CHUNKS: nat := 0x100_0000

  /** `Root` and `Ref`: an object offset and the offset of its symbol. */
  datatype Entry = Entry(objOffset: u32, symbolOffset: u32)
  type Root = Entry
  type Ref = Entry

  datatype Dat = Dat(data: seq<byte>, relocation: Bitmap, roots: seq<Root>, externRefs: seq<Ref>, symbols: seq<byte>)

  /**
   * `DatError::InvalidFile`, plus `Panic` for the inputs on which `import`
   * panics instead of returning an error.
   */
  datatype DatError = InvalidFile | Panic

  // ---------------------------------------------------------------- tables of pairs

  /** The words of a table of pairs, object offset first. */
  function EntryWords(es: seq<Entry>): (r: seq<nat>)
    ensures |r| == 2 * |es| && AllU32(r)
  {
    if es == [] then [] else [es[0].objOffset as nat, es[0].symbolOffset as nat] + EntryWords(es[1..])
  }

  /** The `n` pairs stored from `at`, as `import` reads them. */
  function ReadEntries(s: seq<byte>, at: nat, n: nat): (r: seq<Entry>)
    requires at + 8 * n <= |s|
    ensures |r| == n
    ensures forall i :: 0 <= i < n ==> r[i] == Entry(ReadU32(s, at + 8 * i), ReadU32(s, at + 8 * i + 4))
  {
    seq(n, i requires 0 <= i < n => Entry(ReadU32(s, at + 8 * i), ReadU32(s, at + 8 * i + 4)))
  }

  lemma {:induction false} EntryWordsAt(es: seq<Entry>, i: nat)
    requires i < |es|
    ensures EntryWords(es)[2 * i] == es[i].objOffset
    ensures EntryWords(es)[2 * i + 1] == es[i].symbolOffset
  {
    if i > 0 {
      EntryWordsAt(es[1..], i - 1);
    }
  }

  /** `t` holds the pairs of `es`, object offset first: what `EntryWords` produces. */
  predicate PairsOf(t: seq<nat>, es: seq<Entry>)
  {
    |t| == 2 * |es| &&
    forall i :: 0 <= i < |es| ==> t[2 * i] == es[i].objOffset && t[2 * i + 1] == es[i].symbolOffset
  }

  lemma EntryWordsPairs(es: seq<Entry>)
    ensures PairsOf(EntryWords(es), es)
  {
    forall i | 0 <= i < |es|
      ensures EntryWords(es)[2 * i] == es[i].objOffset && EntryWords(es)[2 * i + 1] == es[i].symbolOffset
    {
      EntryWordsAt(es, i);
    }
  }

  /** Reading back a written table of pairs, from any surrounding bytes, gives the table. */
  lemma ReadEntriesOf(pre: seq<byte>, t: seq<nat>, es: seq<Entry>, post: seq<byte>, s: seq<byte>, at: nat, n: nat)
    requires AllU32(t) && s == pre + Words(t) + post && PairsOf(t, es)
    requires at == |pre| && n == |es|
    ensures at + 8 * n <= |s| && ReadEntries(s, at, n) == es
  {
    forall i | 0 <= i < n
      ensures ReadEntries(s, at, n)[i] == es[i]
    {
      ReadWordAt(pre, t, post, s, at + 4 * (2 * i), 2 * i);
      ReadWordAt(pre, t, post, s, at + 4 * (2 * i + 1), 2 * i + 1);
    }
  }

  /** Writing the pairs read from a region reproduces that region. */
  lemma EntriesOfRead(s: seq<byte>, at: nat, n: nat)
    requires at + 8 * n <= |s|
    ensures Words(EntryWords(ReadEntries(s, at, n))) == s[at..at + 8 * n]
  {
    var es := ReadEntries(s, at, n);
    var w := ReadWords(s, at, 2 * n);
    forall k | 0 <= k < 2 * n
      ensures EntryWords(es)[k] == w[k]
    {
      EntryWordsAt(es, k / 2);
    }
    assert EntryWords(es) == w;
    WordsOfRead(s, at, 2 * n, at + 8 * n);
  }

  // ---------------------------------------------------------------- import

  /** The `i`-th header word. */
  function Field(file: seq<byte>, i: nat): u32
    requires 4 * i + 4 <= |file|
  {
    ReadU32(file, 4 * i)
  }

  /** Bytes of the header, data, relocation, root and extern-ref sections named by the header. */
  function SectionsEnd(file: seq<byte>): nat
    requires |file| >= HEADER_SIZE
  {
    RefAt(file) + 8 * Field(file, 4)
  }

  /** The relocation offsets listed in a file. */
  function RelocList(file: seq<byte>): seq<u32>
    requires |file| >= HEADER_SIZE && RootAt(file) <= |file|
  {
    ReadWords(file, RelocAt(file), Field(file, 2))
  }

  /**
   * `DatFile::import`, check by check in the order of the source. A success
   * means the header's file size is the input's length, the sections it
   * names fit inside the input, and the data and symbol bytes are the
   * corresponding slices of the input.
   */
  function ImportOf(file: seq<byte>): (r: Result<Dat, DatError>)
    ensures r.Success? ==> |file| >= HEADER_SIZE && Field(file, 0) == |file| && SectionsEnd(file) <= |file|
    ensures r.Success? ==> r.value.data == file[HEADER_SIZE..HEADER_SIZE + Field(file, 1)]
    ensures r.Success? ==> r.value.symbols == file[SectionsEnd(file)..]
    ensures r.Success? ==> |r.value.relocation| == CeilDiv(|r.value.data|, BYTES_PER_CHUNK)
    ensures r.Success? ==> |r.value.roots| == Field(file, 3) && |r.value.externRefs| == Field(file, 4)
  {
    if |file| < HEADER_SIZE then Failure(InvalidFile)
    else
      var fileSize := Field(file, 0);
      var dataSize := Field(file, 1);
      var relocCount := Field(file, 2);
      var rootCount := Field(file, 3);
      var refCount := Field(file, 4);
      if fileSize != |file| then Failure(InvalidFile)
      else if HEADER_SIZE + dataSize > |file| then Failure(Panic)
      else
        var relocOffset := RelocAt(file);
        if fileSize < relocOffset + relocCount * 4 then Failure(InvalidFile)
        else
          match Decode(RelocList(file), CeilDiv(dataSize, BYTES_PER_CHUNK))
          case None => Failure(Panic)
          case Some(relocation) =>
            var rootOffset := RootAt(file);
            if fileSize < rootOffset + rootCount * 8 then Failure(InvalidFile)
            else
              var refOffset := RefAt(file);
              if fileSize < refOffset + refCount * 8 then Failure(InvalidFile)
              else
                var symbolOffset := SectionsEnd(file);
                if symbolOffset > fileSize then Failure(InvalidFile)
                else
                  Success(Dat(file[HEADER_SIZE..relocOffset], relocation,
                              ReadEntries(file, rootOffset, rootCount),
                              ReadEntries(file, refOffset, refCount),
                              file[symbolOffset..fileSize]))
  }

  /*
   * The outcome of each check of `import`, given that the earlier ones
   * passed. `DatFile.Import` follows the same steps.
   */

  /** Data running past the end of the input panics (the slice `[..data_size]`). */
  lemma ImportPanicsOnData(file: seq<byte>)
    requires |file| >= HEADER_SIZE && Field(file, 0) == |file|
    requires RelocAt(file) > |file|
    ensures ImportOf(file) == Failure(Panic)
  {
  }

  /** A relocation table running past the file size is invalid. */
  lemma ImportRejectsRelocations(file: seq<byte>)
    requires |file| >= HEADER_SIZE && Field(file, 0) == |file|
    requires RelocAt(file) <= |file| < RootAt(file)
    ensures ImportOf(file) == Failure(InvalidFile)
  {
  }

  /** A relocation offset beyond the bitmap `import` allocates panics (the index `relocation[..]`). */
  lemma ImportPanicsOnRelocation(file: seq<byte>)
    requires |file| >= HEADER_SIZE && Field(file, 0) == |file|
    requires RootAt(file) <= |file|
    requires Decode(RelocList(file), CeilDiv(Field(file, 1), BYTES_PER_CHUNK)).None?
    ensures ImportOf(file) == Failure(Panic)
  {
  }

  /** A root table running past the file size is invalid. */
  lemma ImportRejectsRoots(file: seq<byte>)
    requires |file| >= HEADER_SIZE && Field(file, 0) == |file|
    requires RootAt(file) <= |file| < RefAt(file)
    requires Decode(RelocList(file), CeilDiv(Field(file, 1), BYTES_PER_CHUNK)).Some?
    ensures ImportOf(file) == Failure(InvalidFile)
  {
  }

  /** An extern-ref table running past the file size is invalid. */
  lemma ImportRejectsRefs(file: seq<byte>)
    requires |file| >= HEADER_SIZE && Field(file, 0) == |file|
    requires RefAt(file) <= |file| < SectionsEnd(file)
    requires Decode(RelocList(file), CeilDiv(Field(file, 1), BYTES_PER_CHUNK)).Some?
    ensures ImportOf(file) == Failure(InvalidFile)
  {
  }

  /** When every check passes, `import` returns the sections at the offsets the header names. */
  lemma ImportSections(file: seq<byte>)
    requires Parses(file) && Field(file, 0) == |file|
    ensures ImportOf(file) == Success(Parsed(file))
  {
    assert file[SectionsEnd(file)..] == file[SectionsEnd(file)..Field(file, 0)];
  }

  /** Inputs shorter than the header, or whose header size is not their length, are invalid. */
  lemma ImportRejectsHeader(file: seq<byte>)
    ensures |file| < HEADER_SIZE ==> ImportOf(file) == Failure(InvalidFile)
    ensures |file| >= HEADER_SIZE && Field(file, 0) != |file| ==> ImportOf(file) == Failure(InvalidFile)
  {
  }

  /**
   * Once the data section fits, a relocation, root or extern-ref section
   * running past the end is `InvalidFile`; an import succeeds only when all
   * of them fit.
   */
  lemma ImportRejectsExtent(file: seq<byte>)
    requires |file| >= HEADER_SIZE && Field(file, 0) == |file|
    requires HEADER_SIZE + Field(file, 1) <= |file|
    requires SectionsEnd(file) > |file|
    ensures ImportOf(file).Failure?
  {
  }

  // ---------------------------------------------------------------- export

  /** The size `export` computes. */
  function ExportSize(d: Dat): nat
  {
    HEADER_SIZE + |d.data| + 4 * TotalOnes(d.relocation, |d.relocation|) + 8 * |d.roots| + 8 * |d.externRefs| + |d.symbols|
  }

  /** The relocation entries fit a u32 and their offsets do too. */
  lemma RelocationFits(bm: Bitmap)
    requires |bm| <= MAX_CHUNKS
    ensures TotalOnes(bm, |bm|) < U32_LIMIT
    ensures AllU32(Targets(bm))
  {
    TotalOnesBound(bm, |bm|);
    TargetsBound(bm);
    forall i | 0 <= i < |Targets(bm)|
      ensures Targets(bm)[i] < U32_LIMIT
    {
      assert Targets(bm)[i] in Targets(bm);
    }
  }

  /** The eight header words `export` pushes, the lengths cast `as u32`. */
  function HeaderWords(d: Dat): (r: seq<nat>)
    requires |d.relocation| <= MAX_CHUNKS
    ensures |r| == 8 && AllU32(r)
  {
    RelocationFits(d.relocation);
    [Trunc32(ExportSize(d)), Trunc32(|d.data|), TotalOnes(d.relocation, |d.relocation|),
     Trunc32(|d.roots|), Trunc32(|d.externRefs|), 0, 0, 0]
  }

  /** `DatFile::export`. */
  function ExportOf(d: Dat): (r: seq<byte>)
    requires |d.relocation| <= MAX_CHUNKS
  {
    RelocationFits(d.relocation);
    Words(HeaderWords(d)) + d.data + Words(Targets(d.relocation))
      + Words(EntryWords(d.roots)) + Words(EntryWords(d.externRefs)) + d.symbols
  }

  /** The bytes `export` writes after the header. */
  function Body(d: Dat): (r: seq<byte>)
    requires |d.relocation| <= MAX_CHUNKS
  {
    RelocationFits(d.relocation);
    d.data + Words(Targets(d.relocation)) + Words(EntryWords(d.roots)) + Words(EntryWords(d.externRefs)) + d.symbols
  }

  /** The export is the header words followed by the body. */
  lemma ExportSplit(d: Dat)
    requires |d.relocation| <= MAX_CHUNKS
    ensures ExportOf(d) == Words(HeaderWords(d)) + Body(d)
    ensures |Words(HeaderWords(d))| == HEADER_SIZE
  {
    ExportPieces(d);
    Regroup1(Words(HeaderWords(d)), d.data, Words(Targets(d.relocation)), Words(EntryWords(d.roots)),
      Words(EntryWords(d.externRefs)), d.symbols, ExportOf(d));
  }

  /** The header word `i` of the export. */
  lemma ExportField(d: Dat, i: nat)
    requires |d.relocation| <= MAX_CHUNKS && i < 8
    ensures |ExportOf(d)| >= HEADER_SIZE
    ensures Field(ExportOf(d), i) == HeaderWords(d)[i]
  {
    ExportSplit(d);
    ReadLeadingWord(HeaderWords(d), Body(d), ExportOf(d), i);
  }

  /** The size of the export is the size `export` computes. */
  lemma ExportSizeIs(d: Dat)
    requires |d.relocation| <= MAX_CHUNKS
    ensures |ExportOf(d)| == ExportSize(d)
  {
    RelocationFits(d.relocation);
    TargetsCount(d.relocation);
    ExportSplit(d);
  }

  /**
   * The output is as long as the computed size, and its first word is that
   * size: the output length equals the header's file size whenever the size
   * fits a u32.
   */
  lemma ExportLength(d: Dat)
    requires |d.relocation| <= MAX_CHUNKS
    ensures |ExportOf(d)| == ExportSize(d)
    ensures ExportSize(d) < U32_LIMIT ==> Field(ExportOf(d), 0) == |ExportOf(d)|
  {
    ExportSizeIs(d);
    ExportField(d, 0);
  }

  /** Three zero words are twelve zero bytes. */
  lemma ZeroWords()
    ensures Words([0, 0, 0]) == Zeros(12)
  {
    assert BE32(0) == [0, 0, 0, 0];
  }

  /** The header ends in twelve zero bytes. */
  lemma HeaderZeros(d: Dat)
    requires |d.relocation| <= MAX_CHUNKS
    ensures Words(HeaderWords(d))[0x14..HEADER_SIZE] == Zeros(12)
  {
    var h := HeaderWords(d);
    assert h == h[..5] + [0, 0, 0];
    WordsAppend(h[..5], [0, 0, 0]);
    ZeroWords();
  }

  /**
   * The header carries the data length, the relocation count and the two
   * table lengths, and bytes 0x14 .. 0x20 are zero.
   */
  lemma ExportHeader(d: Dat)
    requires |d.relocation| <= MAX_CHUNKS
    requires ExportSize(d) < U32_LIMIT
    ensures |ExportOf(d)| >= HEADER_SIZE
    ensures Field(ExportOf(d), 1) == |d.data|
    ensures Field(ExportOf(d), 2) == TotalOnes(d.relocation, |d.relocation|)
    ensures Field(ExportOf(d), 3) == |d.roots| && Field(ExportOf(d), 4) == |d.externRefs|
    ensures forall i :: 0x14 <= i < HEADER_SIZE ==> ExportOf(d)[i] == 0
  {
    ExportField(d, 1);
    ExportField(d, 2);
    ExportField(d, 3);
    ExportField(d, 4);
    HeaderZeros(d);
    ExportSplit(d);
    forall i | 0x14 <= i < HEADER_SIZE
      ensures ExportOf(d)[i] == 0
    {
      assert ExportOf(d)[i] == Words(HeaderWords(d))[0x14..HEADER_SIZE][i - 0x14];
    }
  }

  /** Where the sections of an export start. */
  function RelocStart(d: Dat): nat { HEADER_SIZE + |d.data| }
  function RootStart(d: Dat): nat { RelocStart(d) + 4 * TotalOnes(d.relocation, |d.relocation|) }
  function RefStart(d: Dat): nat { RootStart(d) + 8 * |d.roots| }
  function SymbolStart(d: Dat): nat { RefStart(d) + 8 * |d.externRefs| }

  /** Each section of the export sits where the header says, holding what the file holds. */
  lemma ExportSections(d: Dat)
    requires |d.relocation| <= MAX_CHUNKS
    ensures SymbolStart(d) <= |ExportOf(d)|
    ensures ExportOf(d)[HEADER_SIZE..RelocStart(d)] == d.data
    ensures ReadWords(ExportOf(d), RelocStart(d), TotalOnes(d.relocation, |d.relocation|)) == Targets(d.relocation)
    ensures ReadEntries(ExportOf(d), RootStart(d), |d.roots|) == d.roots
    ensures ReadEntries(ExportOf(d), RefStart(d), |d.externRefs|) == d.externRefs
    ensures ExportOf(d)[SymbolStart(d)..] == d.symbols
  {
    ExportDataSection(d);
    ExportRelocSection(d);
    ExportRootSection(d);
    ExportRefSection(d);
    ExportSymbolSection(d);
  }

  /** The export, cut where its sections meet. */
  lemma ExportPieces(d: Dat)
    requires |d.relocation| <= MAX_CHUNKS
    ensures AllU32(Targets(d.relocation))
    ensures |Targets(d.relocation)| == TotalOnes(d.relocation, |d.relocation|)
    ensures ExportOf(d) == Words(HeaderWords(d)) + d.data + Words(Targets(d.relocation))
      + Words(EntryWords(d.roots)) + Words(EntryWords(d.externRefs)) + d.symbols
    ensures |Words(HeaderWords(d))| == HEADER_SIZE
  {
    RelocationFits(d.relocation);
    TargetsCount(d.relocation);
  }

  lemma ExportDataSection(d: Dat)
    requires |d.relocation| <= MAX_CHUNKS
    ensures RelocStart(d) <= |ExportOf(d)|
    ensures ExportOf(d)[HEADER_SIZE..RelocStart(d)] == d.data
  {
    ExportPieces(d);
    var h := Words(HeaderWords(d));
    var t, r, f := Words(Targets(d.relocation)), Words(EntryWords(d.roots)), Words(EntryWords(d.externRefs));
    Regroup1(h, d.data, t, r, f, d.symbols, ExportOf(d));
    Regroup2(h, d.data, t, r, f, d.symbols, ExportOf(d));
    Middle(h, d.data, t + r + f + d.symbols, ExportOf(d), HEADER_SIZE, RelocStart(d));
  }

  lemma ExportRelocSection(d: Dat)
    requires |d.relocation| <= MAX_CHUNKS
    ensures RootStart(d) <= |ExportOf(d)|
    ensures ReadWords(ExportOf(d), RelocStart(d), TotalOnes(d.relocation, |d.relocation|)) == Targets(d.relocation)
  {
    ExportPieces(d);
    var h := Words(HeaderWords(d));
    var r, f := Words(EntryWords(d.roots)), Words(EntryWords(d.externRefs));
    Regroup3(h, d.data, Words(Targets(d.relocation)), r, f, d.symbols, ExportOf(d));
    ReadWordsOf(h + d.data, Targets(d.relocation), r + f + d.symbols, ExportOf(d),
      RelocStart(d), TotalOnes(d.relocation, |d.relocation|));
  }

  lemma ExportRootSection(d: Dat)
    requires |d.relocation| <= MAX_CHUNKS
    ensures RefStart(d) <= |ExportOf(d)|
    ensures ReadEntries(ExportOf(d), RootStart(d), |d.roots|) == d.roots
  {
    ExportPieces(d);
    var h, t := Words(HeaderWords(d)), Words(Targets(d.relocation));
    var f := Words(EntryWords(d.externRefs));
    Regroup4(h, d.data, t, Words(EntryWords(d.roots)), f, d.symbols, ExportOf(d));
    EntryWordsPairs(d.roots);
    ReadEntriesOf(h + d.data + t, EntryWords(d.roots), d.roots, f + d.symbols, ExportOf(d), RootStart(d), |d.roots|);
  }

  lemma ExportRefSection(d: Dat)
    requires |d.relocation| <= MAX_CHUNKS
    ensures SymbolStart(d) <= |ExportOf(d)|
    ensures ReadEntries(ExportOf(d), RefStart(d), |d.externRefs|) == d.externRefs
  {
    ExportPieces(d);
    var pre := Words(HeaderWords(d)) + d.data + Words(Targets(d.relocation)) + Words(EntryWords(d.roots));
    EntryWordsPairs(d.externRefs);
    ReadEntriesOf(pre, EntryWords(d.externRefs), d.externRefs, d.symbols, ExportOf(d), RefStart(d), |d.externRefs|);
  }

  lemma ExportSymbolSection(d: Dat)
    requires |d.relocation| <= MAX_CHUNKS
    ensures SymbolStart(d) <= |ExportOf(d)|
    ensures ExportOf(d)[SymbolStart(d)..] == d.symbols
  {
    ExportPieces(d);
    var pre := Words(HeaderWords(d)) + d.data + Words(Targets(d.relocation)) + Words(EntryWords(d.roots))
      + Words(EntryWords(d.externRefs));
    Tail(pre, d.symbols, ExportOf(d), SymbolStart(d));
  }

  /**
   * The relocation list `export` writes holds the offsets of the set bits,
   * strictly ascending and 4-aligned.
   */
  lemma ExportRelocations(d: Dat)
    requires |d.relocation| <= MAX_CHUNKS
    ensures RootStart(d) <= |ExportOf(d)|
    ensures ReadWords(ExportOf(d), RelocStart(d), TotalOnes(d.relocation, |d.relocation|)) == Targets(d.relocation)
    ensures Increasing(Targets(d.relocation))
    ensures forall k :: 0 <= k < |Targets(d.relocation)| ==> Targets(d.relocation)[k] % 4 == 0
  {
    var t := Targets(d.relocation);
    ExportSections(d);
    TargetsIncreasing(d.relocation);
    forall k | 0 <= k < |t|
      ensures t[k] % 4 == 0
    {
      TargetsMembers(d.relocation, t[k]);
    }
  }

  /** A bitmap of `ceil(n / 256)` chunks for fewer than 2^32 bytes is short enough to export. */
  lemma ChunksFit(n: nat)
    requires n < U32_LIMIT
    ensures CeilDiv(n, BYTES_PER_CHUNK) <= MAX_CHUNKS
  {
  }

  /** Whether the header's sections fit the file and its relocation offsets decode. */
  predicate Parses(file: seq<byte>)
  {
    && |file| >= HEADER_SIZE && SectionsEnd(file) <= |file|
    && Decode(RelocList(file), CeilDiv(Field(file, 1), BYTES_PER_CHUNK)).Some?
  }

  /** The value whose sections a parsing file holds. */
  function Parsed(file: seq<byte>): Dat
    requires Parses(file)
  {
    Dat(file[HEADER_SIZE..RelocAt(file)],
        Decode(RelocList(file), CeilDiv(Field(file, 1), BYTES_PER_CHUNK)).value,
        ReadEntries(file, RootAt(file), Field(file, 3)),
        ReadEntries(file, RefAt(file), Field(file, 4)),
        file[SectionsEnd(file)..])
  }

  /** Where the header of `file` says its relocation, root and extern-ref sections start. */
  function RelocAt(file: seq<byte>): nat
    requires |file| >= HEADER_SIZE
  {
    HEADER_SIZE + Field(file, 1)
  }

  function RootAt(file: seq<byte>): nat
    requires |file| >= HEADER_SIZE
  {
    RelocAt(file) + 4 * Field(file, 2)
  }

  function RefAt(file: seq<byte>): nat
    requires |file| >= HEADER_SIZE
  {
    RootAt(file) + 8 * Field(file, 3)
  }

  /** `import` succeeds exactly on well-sized files that parse, returning their sections. */
  lemma ImportFits(file: seq<byte>)
    ensures ImportOf(file).Success? <==> Parses(file) && Field(file, 0) == |file|
    ensures ImportOf(file).Success? ==> ImportOf(file).value == Parsed(file)
  {
    if |file| >= HEADER_SIZE && Field(file, 0) == |file| && SectionsEnd(file) <= |file| {
      ImportOfFitting(file);
    }
  }

  /** On a file whose sections fit, `import` succeeds exactly when the relocation offsets decode. */
  lemma ImportOfFitting(file: seq<byte>)
    requires |file| >= HEADER_SIZE && Field(file, 0) == |file| && SectionsEnd(file) <= |file|
    ensures ImportOf(file).Success? <==> Parses(file)
    ensures Parses(file) ==> ImportOf(file) == Success(Parsed(file))
  {
    if Parses(file) {
      ImportSections(file);
    }
  }

  /**
   * Round trip value -> bytes -> value: importing what `export` writes gives
   * the file back, provided the bitmap has the `ceil(|data| / 256)` chunks
   * `import` allocates and the file fits the u32 header fields.
   */
  lemma ImportExport(d: Dat)
    requires |d.relocation| == CeilDiv(|d.data|, BYTES_PER_CHUNK)
    requires ExportSize(d) < U32_LIMIT
    ensures |d.relocation| <= MAX_CHUNKS
    ensures ImportOf(ExportOf(d)) == Success(d)
  {
    ChunksFit(|d.data|);
    ExportLength(d);
    ExportHeader(d);
    ExportSections(d);
    ImportOfLayout(ExportOf(d), d);
  }

  /** A file laid out as `d` with a header naming its sections imports as `d`. */
  lemma ImportOfLayout(file: seq<byte>, d: Dat)
    requires |d.relocation| == CeilDiv(|d.data|, BYTES_PER_CHUNK)
    requires |file| >= HEADER_SIZE && Field(file, 0) == |file|
    requires Field(file, 1) == |d.data| && Field(file, 2) == TotalOnes(d.relocation, |d.relocation|)
    requires Field(file, 3) == |d.roots| && Field(file, 4) == |d.externRefs|
    requires SymbolStart(d) <= |file|
    requires file[HEADER_SIZE..RelocStart(d)] == d.data
    requires ReadWords(file, RelocStart(d), TotalOnes(d.relocation, |d.relocation|)) == Targets(d.relocation)
    requires ReadEntries(file, RootStart(d), |d.roots|) == d.roots
    requires ReadEntries(file, RefStart(d), |d.externRefs|) == d.externRefs
    requires file[SymbolStart(d)..] == d.symbols
    ensures ImportOf(file) == Success(d)
  {
    LayoutValue(file, d);
    ImportFits(file);
  }

  /** The value `import` assembles from such a file is `d`. */
  lemma LayoutValue(file: seq<byte>, d: Dat)
    requires |d.relocation| == CeilDiv(|d.data|, BYTES_PER_CHUNK)
    requires |file| >= HEADER_SIZE && Field(file, 0) == |file|
    requires Field(file, 1) == |d.data| && Field(file, 2) == TotalOnes(d.relocation, |d.relocation|)
    requires Field(file, 3) == |d.roots| && Field(file, 4) == |d.externRefs|
    requires SymbolStart(d) <= |file|
    requires file[HEADER_SIZE..RelocStart(d)] == d.data
    requires ReadWords(file, RelocStart(d), TotalOnes(d.relocation, |d.relocation|)) == Targets(d.relocation)
    requires ReadEntries(file, RootStart(d), |d.roots|) == d.roots
    requires ReadEntries(file, RefStart(d), |d.externRefs|) == d.externRefs
    requires file[SymbolStart(d)..] == d.symbols
    ensures Parses(file) && Parsed(file) == d
  {
    SameSlice(file, HEADER_SIZE, RelocStart(d), HEADER_SIZE, RelocAt(file));
    SameWords(file, RelocStart(d), TotalOnes(d.relocation, |d.relocation|), RelocAt(file), Field(file, 2));
    SameEntries(file, RootStart(d), |d.roots|, RootAt(file), Field(file, 3));
    SameEntries(file, RefStart(d), |d.externRefs|, RefAt(file), Field(file, 4));
    SameSuffix(file, SymbolStart(d), SectionsEnd(file));
    DecodeTargets(d.relocation);
    SameDecode(RelocList(file), CeilDiv(Field(file, 1), BYTES_PER_CHUNK), Targets(d.relocation), |d.relocation|);
    assert Parses(file);
    SameDat(Parsed(file), d);
  }

  /** Values with equal sections are equal. */
  lemma SameDat(a: Dat, b: Dat)
    requires a.data == b.data && a.relocation == b.relocation && a.roots == b.roots
    requires a.externRefs == b.externRefs && a.symbols == b.symbols
    ensures a == b
  {
  }

  /** Equal arguments decode alike. */
  lemma SameDecode(offsets: seq<nat>, chunks: nat, offsets': seq<nat>, chunks': nat)
    requires offsets == offsets' && chunks == chunks'
    ensures Decode(offsets, chunks) == Decode(offsets', chunks')
  {
  }

  /** Equal bounds cut equal slices. */
  lemma SameSlice(s: seq<byte>, lo: nat, hi: nat, lo': nat, hi': nat)
    requires lo == lo' <= hi == hi' <= |s|
    ensures s[lo..hi] == s[lo'..hi']
  {
  }

  lemma SameSuffix(s: seq<byte>, lo: nat, lo': nat)
    requires lo == lo' <= |s|
    ensures s[lo..] == s[lo'..]
  {
  }

  /** Equal bounds read equal lists of words and of pairs. */
  lemma SameWords(s: seq<byte>, at: nat, n: nat, at': nat, n': nat)
    requires at == at' && n == n' && at + 4 * n <= |s|
    ensures ReadWords(s, at, n) == ReadWords(s, at', n')
  {
  }

  lemma SameEntries(s: seq<byte>, at: nat, n: nat, at': nat, n': nat)
    requires at == at' && n == n' && at + 8 * n <= |s|
    ensures ReadEntries(s, at, n) == ReadEntries(s, at', n')
  {
  }

  /**
   * Round trip bytes -> value -> bytes: exporting an imported file gives the
   * input back, provided its relocation list is strictly ascending and
   * 4-aligned and bytes 0x14 .. 0x20 are zero; `export` always writes such a
   * list and zero there, so these are exactly the files it can produce.
   */
  lemma ExportImport(file: seq<byte>)
    requires ImportOf(file).Success?
    requires Increasing(RelocList(file))
    requires forall k :: 0 <= k < |RelocList(file)| ==> RelocList(file)[k] % 4 == 0
    requires forall i :: 0x14 <= i < HEADER_SIZE ==> file[i] == 0
    ensures |ImportOf(file).value.relocation| <= MAX_CHUNKS
    ensures ExportOf(ImportOf(file).value) == file
  {
    ImportFits(file);
    ExportParsed(file);
  }

  /** Exporting the value a file parses to reproduces the file. */
  lemma ExportParsed(file: seq<byte>)
    requires Parses(file) && Field(file, 0) == |file|
    requires Increasing(RelocList(file))
    requires forall k :: 0 <= k < |RelocList(file)| ==> RelocList(file)[k] % 4 == 0
    requires forall i :: 0x14 <= i < HEADER_SIZE ==> file[i] == 0
    ensures |Parsed(file).relocation| <= MAX_CHUNKS
    ensures ExportOf(Parsed(file)) == file
  {
    var d := Parsed(file);
    ParsedSizes(file);
    ParsedStarts(file, d);
    ParsedRelocations(file);
    RelocWordsAt(file, Targets(d.relocation), RelocStart(d), Field(file, 2), RootStart(d));
    TableWordsAt(file, d.roots, RootStart(d), Field(file, 3), RefStart(d));
    TableWordsAt(file, d.externRefs, RefStart(d), Field(file, 4), SymbolStart(d));
    ExportOfLayout(file, d);
  }

  /** The lengths of a parsed value are the header's counts. */
  lemma ParsedSizes(file: seq<byte>)
    requires Parses(file)
    requires Increasing(RelocList(file))
    requires forall k :: 0 <= k < |RelocList(file)| ==> RelocList(file)[k] % 4 == 0
    ensures |Parsed(file).relocation| <= MAX_CHUNKS
    ensures Field(file, 1) == |Parsed(file).data|
    ensures Field(file, 2) == TotalOnes(Parsed(file).relocation, |Parsed(file).relocation|)
    ensures Field(file, 3) == |Parsed(file).roots| && Field(file, 4) == |Parsed(file).externRefs|
  {
    ParsedCount(file);
  }

  /** The sections of a parsed value start where the header says, and the export is as long as the file. */
  lemma ParsedStarts(file: seq<byte>, d: Dat)
    requires |file| >= HEADER_SIZE && SectionsEnd(file) <= |file| && Field(file, 0) == |file|
    requires Field(file, 1) == |d.data| && Field(file, 2) == TotalOnes(d.relocation, |d.relocation|)
    requires Field(file, 3) == |d.roots| && Field(file, 4) == |d.externRefs|
    requires d.symbols == file[SectionsEnd(file)..]
    ensures RelocStart(d) == RelocAt(file) && RootStart(d) == RootAt(file) && RefStart(d) == RefAt(file)
    ensures SymbolStart(d) == SectionsEnd(file)
    ensures ExportSize(d) == |file|
  {
  }

  /** The words of a list read from a region are that region. */
  lemma RelocWordsAt(file: seq<byte>, t: seq<nat>, at: nat, n: nat, end: nat)
    requires end == at + 4 * n <= |file| && t == ReadWords(file, at, n)
    ensures AllU32(t) && Words(t) == file[at..end]
  {
    WordsOfRead(file, at, n, end);
  }

  /** The words of a table read from a region are that region. */
  lemma TableWordsAt(file: seq<byte>, es: seq<Entry>, at: nat, n: nat, end: nat)
    requires end == at + 8 * n <= |file| && es == ReadEntries(file, at, n)
    ensures Words(EntryWords(es)) == file[at..end]
  {
    EntriesOfRead(file, at, n);
  }

  /** A parsed file's bitmap lists back exactly its relocation offsets. */
  lemma ParsedRelocations(file: seq<byte>)
    requires Parses(file)
    requires Increasing(RelocList(file))
    requires forall k :: 0 <= k < |RelocList(file)| ==> RelocList(file)[k] % 4 == 0
    ensures |Parsed(file).relocation| <= MAX_CHUNKS
    ensures Targets(Parsed(file).relocation) == RelocList(file)
  {
    ChunksFit(Field(file, 1));
    TargetsDecode(RelocList(file), CeilDiv(Field(file, 1), BYTES_PER_CHUNK));
  }

  /** A parsed file's bitmap has as many set bits as the file lists relocations. */
  lemma ParsedCount(file: seq<byte>)
    requires Parses(file)
    requires Increasing(RelocList(file))
    requires forall k :: 0 <= k < |RelocList(file)| ==> RelocList(file)[k] % 4 == 0
    ensures |Parsed(file).relocation| <= MAX_CHUNKS
    ensures TotalOnes(Parsed(file).relocation, |Parsed(file).relocation|) == Field(file, 2)
  {
    ParsedRelocations(file);
    TargetsCount(Parsed(file).relocation);
  }

  /** A file whose header and sections describe `d` is what `export` writes for `d`. */
  lemma ExportOfLayout(file: seq<byte>, d: Dat)
    requires |d.relocation| <= MAX_CHUNKS
    requires |file| >= HEADER_SIZE && Field(file, 0) == |file| && ExportSize(d) == |file|
    requires Field(file, 1) == |d.data| && Field(file, 2) == TotalOnes(d.relocation, |d.relocation|)
    requires Field(file, 3) == |d.roots| && Field(file, 4) == |d.externRefs|
    requires forall i :: 0x14 <= i < HEADER_SIZE ==> file[i] == 0
    requires SymbolStart(d) <= |file|
    requires file[HEADER_SIZE..RelocStart(d)] == d.data
    requires AllU32(Targets(d.relocation))
    requires Words(Targets(d.relocation)) == file[RelocStart(d)..RootStart(d)]
    requires Words(EntryWords(d.roots)) == file[RootStart(d)..RefStart(d)]
    requires Words(EntryWords(d.externRefs)) == file[RefStart(d)..SymbolStart(d)]
    requires file[SymbolStart(d)..] == d.symbols
    ensures ExportOf(d) == file
  {
    HeaderOfLayout(file, d);
    BodyOfLayout(file, d);
    ExportSplit(d);
    assert file == file[..HEADER_SIZE] + file[HEADER_SIZE..];
  }

  /** The header `export` writes for `d` is the header of a file whose fields describe `d`. */
  lemma HeaderOfLayout(file: seq<byte>, d: Dat)
    requires |d.relocation| <= MAX_CHUNKS
    requires |file| >= HEADER_SIZE && Field(file, 0) == |file| && ExportSize(d) == |file|
    requires Field(file, 1) == |d.data| && Field(file, 2) == TotalOnes(d.relocation, |d.relocation|)
    requires Field(file, 3) == |d.roots| && Field(file, 4) == |d.externRefs|
    requires forall i :: 0x14 <= i < HEADER_SIZE ==> file[i] == 0
    ensures Words(HeaderWords(d)) == file[..HEADER_SIZE]
  {
    var hw := HeaderWords(d);
    var rw := ReadWords(file, 0, 8);
    ZeroWord(file, 20);
    ZeroWord(file, 24);
    ZeroWord(file, 28);
    assert hw == rw;
    WordsOfRead(file, 0, 8, HEADER_SIZE);
  }

  /** The body `export` writes for `d` is the body of a file whose sections hold `d`. */
  lemma BodyOfLayout(file: seq<byte>, d: Dat)
    requires |d.relocation| <= MAX_CHUNKS
    requires SymbolStart(d) <= |file|
    requires file[HEADER_SIZE..RelocStart(d)] == d.data
    requires AllU32(Targets(d.relocation))
    requires Words(Targets(d.relocation)) == file[RelocStart(d)..RootStart(d)]
    requires Words(EntryWords(d.roots)) == file[RootStart(d)..RefStart(d)]
    requires Words(EntryWords(d.externRefs)) == file[RefStart(d)..SymbolStart(d)]
    requires file[SymbolStart(d)..] == d.symbols
    ensures Body(d) == file[HEADER_SIZE..]
  {
    SliceJoin(file, HEADER_SIZE, RelocStart(d), RootStart(d), RefStart(d), SymbolStart(d));
  }

  /** Five adjacent slices make up the suffix they cover. */
  lemma SliceJoin(s: seq<byte>, a: nat, b: nat, c: nat, d: nat, e: nat)
    requires a <= b <= c <= d <= e <= |s|
    ensures s[a..] == s[a..b] + s[b..c] + s[c..d] + s[d..e] + s[e..]
  {
  }

  /** Four zero bytes read as the word 0. */
  lemma ZeroWord(s: seq<byte>, at: nat)
    requires at + 4 <= |s|
    requires s[at] == 0 && s[at + 1] == 0 && s[at + 2] == 0 && s[at + 3] == 0
    ensures ReadU32(s, at) == 0
  {
  }

  // ---------------------------------------------------------------- in-place operations as values

  /** `Vec::resize(n, 0)`: truncate to `n`, or pad with zero bytes up to `n`. */
  function Resize(s: seq<byte>, n: nat): (r: seq<byte>)
    ensures |r| == n
    ensures n <= |s| ==> r == s[..n]
    ensures n > |s| ==> r == s + Zeros(n - |s|)
  {
    if n <= |s| then s[..n] else s + Zeros(n - |s|)
  }

  /**
   * `object_alloc(size)` as written: an unaligned data buffer is resized to
   * `(len & 3) + 4` bytes, then the offset is the length and `size` zero
   * bytes are appended. Returns the new data and the offset.
   */
  function AllocOf(data: seq<byte>, size: u32): (seq<byte>, u32)
  {
    var padded := if |data| % 4 != 0 then Resize(data, |data| % 4 + 4) else data;
    (Resize(padded, |padded| + size), Trunc32(|padded|))
  }

  /**
   * On an aligned buffer, `object_alloc(size)` returns the old length and
   * appends exactly `size` zero bytes, leaving earlier bytes unchanged.
   */
  lemma AllocAligned(data: seq<byte>, size: u32)
    requires |data| % 4 == 0 && |data| < U32_LIMIT
    ensures AllocOf(data, size).1 == |data|
    ensures AllocOf(data, size).0 == data + Zeros(size)
  {
  }

  /**
   * A 9-byte buffer is cut down to 5 bytes by the next allocation, and the
   * offset returned is 5, which is not 4-aligned.
   */
  lemma AllocTruncates(data: seq<byte>)
    requires |data| == 9
    ensures |AllocOf(data, 0).0| == 5 && AllocOf(data, 0).1 == 5
    ensures AllocOf(data, 0).1 % 4 != 0
  {
  }

  /** The next multiple of 4 at or above `n` (`len` rounded up, as `align_forward(len, 4)` does). */
  function AlignUp4(n: nat): (r: nat)
    ensures r % 4 == 0 && n <= r < n + 4
  {
    if n % 4 == 0 then n else n + (4 - n % 4)
  }

  /**
   * `object_alloc` as evidently intended: pad the buffer with zeros up to a
   * multiple of 4, then append `size` zero bytes at that offset.
   */
  function AlignedAllocOf(data: seq<byte>, size: u32): (seq<byte>, nat)
  {
    var offset := AlignUp4(|data|);
    (data + Zeros(offset - |data|) + Zeros(size), offset)
  }

  /**
   * The intended allocation keeps every existing byte, returns a 4-aligned
   * offset at or after the old end, and makes exactly `size` zero bytes
   * available there.
   */
  lemma AlignedAllocSpec(data: seq<byte>, size: u32)
    ensures AlignedAllocOf(data, size).1 % 4 == 0
    ensures |data| <= AlignedAllocOf(data, size).1 < |data| + 4
    ensures AlignedAllocOf(data, size).0[..|data|] == data
    ensures |AlignedAllocOf(data, size).0| == AlignedAllocOf(data, size).1 + size
    ensures forall i :: AlignedAllocOf(data, size).1 <= i < |AlignedAllocOf(data, size).0| ==> AlignedAllocOf(data, size).0[i] == 0
    ensures |data| % 4 == 0 ==> AlignedAllocOf(data, size) == (AllocOf(data, size).0, |data|)
  {
    var (r, offset) := AlignedAllocOf(data, size);
    assert r[..|data|] == data;
    forall i | offset <= i < |r|
      ensures r[i] == 0
    {
      assert r[i] == Zeros(size)[i - offset];
    }
  }

  /** All bytes are 7-bit ASCII. */
  predicate IsAscii(s: seq<byte>)
  {
    forall i :: 0 <= i < |s| ==> s[i] < 0x80
  }

  /** `symbol_add`: the table with `s` and, unless `s` already ends in one, a NUL appended. */
  function SymbolsAfterAdd(symbols: seq<byte>, s: seq<byte>): (r: seq<byte>)
  {
    symbols + s + if |s| > 0 && s[|s| - 1] == 0 then [] else [0]
  }

  /**
   * `symbol_read(at)`: the bytes from `at` up to the first NUL, or `None`
   * when they are not ASCII. The source panics if `at` is past the table or
   * no NUL follows it.
   */
  function SymbolRead(symbols: seq<byte>, at: nat): (r: Option<seq<byte>>)
    requires at <= |symbols|
    requires Terminated(symbols, at)
    ensures r.Some? ==> at + |r.value| < |symbols| && symbols[at..at + |r.value|] == r.value
    ensures r.Some? ==> symbols[at + |r.value|] == 0 && IsAscii(r.value) && 0 !in r.value
    ensures r.None? <==> !IsAscii(symbols[at..NulFrom(symbols, at)])
  {
    var bytes := symbols[at..NulFrom(symbols, at)];
    if IsAscii(bytes) then Some(bytes) else None
  }

  /**
   * Reading a table at the offset `symbol_add` returned gives the symbol
   * back, for an ASCII symbol without interior NULs.
   */
  lemma SymbolAddRead(symbols: seq<byte>, s: seq<byte>)
    requires IsAscii(s) && 0 !in s
    ensures |symbols| < |SymbolsAfterAdd(symbols, s)|
    ensures Terminated(SymbolsAfterAdd(symbols, s), |symbols|)
    ensures SymbolRead(SymbolsAfterAdd(symbols, s), |symbols|) == Some(s)
  {
    var t := SymbolsAfterAdd(symbols, s);
    assert t[|symbols| + |s|] == 0;
    forall j | |symbols| <= j < |symbols| + |s|
      ensures t[j] != 0
    {
      assert t[j] == s[j - |symbols|];
    }
    assert NulFrom(t, |symbols|) == |symbols| + |s|;
    assert t[|symbols|..|symbols| + |s|] == s;
  }

  /**
   * Two adds return consecutive offsets: for a symbol whose last byte is
   * not a NUL (interior NULs included) the second offset is the first plus
   * `|s| + 1`; for one already ending in a NUL it is the first plus `|s|`.
   * Either way the earlier symbols stay in front.
   */
  lemma SymbolAddTwice(symbols: seq<byte>, s: seq<byte>)
    ensures s == [] || s[|s| - 1] != 0 ==> |SymbolsAfterAdd(symbols, s)| == |symbols| + |s| + 1
    ensures s != [] && s[|s| - 1] == 0 ==> |SymbolsAfterAdd(symbols, s)| == |symbols| + |s|
    ensures SymbolsAfterAdd(symbols, s)[..|symbols|] == symbols
  {
    assert SymbolsAfterAdd(symbols, s)[..|symbols|] == symbols;
  }
}
