/**
 * The C library's `DatFile` (`dat.c`): a record of six buffers that the
 * library's functions update in place. Each buffer is a sequence field; its
 * count field (`data_size`, `reloc_count`, ...) is the sequence's length,
 * and capacities are left to the sequences. Every method is proved against
 * the definitions of `CFormat`.
 */
module CDatFile {

  import opened Wrappers
  import opened Bytes
  import opened CFormat

  /**
   * `binary_search_refs`: the index `Search` defines, on any table; in an
   * ascending table the index of `ref` if it is there, otherwise the index
   * where inserting it keeps the table sorted.
   */
  method BinarySearchRefs(refs: seq<u32>, ref: u32) returns (idx: u32)
    requires |refs| < U32_LIMIT
    ensures idx as nat == Search(refs, ref)
    ensures Sorted(refs) && ref in refs ==> idx as nat < |refs| && refs[idx] == ref
    ensures Sorted(refs) && ref !in refs ==> idx as nat == Rank(refs, ref)
  {
    idx := SearchLoop(refs, ref);
    SearchFacts(refs, ref);
  }

  /** The loop of `binary_search_refs`, window by window. */
  method SearchLoop(refs: seq<u32>, ref: u32) returns (idx: u32)
    requires |refs| < U32_LIMIT
    ensures idx as nat == Search(refs, ref)
  {
    var left: u32 := 0;
    var right: u32 := |refs|;
    var count: u32 := |refs|;
    while left < right
      invariant left <= right <= |refs| && count == right - left
      invariant SearchFrom(refs, ref, left, right) == Search(refs, ref)
      decreases count
    {
      var mid: u32 := left + count / 2;
      var m := refs[mid];
      if m < ref {
        left := mid + 1;
      } else if m > ref {
        right := mid;
      } else {
        return mid;
      }
      count := right - left;
    }
    return right;
  }

  /** `SearchIs`, stated for any table. */
  lemma SearchFacts(refs: seq<u32>, ref: u32)
    ensures Sorted(refs) && ref in refs ==> Search(refs, ref) < |refs| && refs[Search(refs, ref)] == ref
    ensures Sorted(refs) && ref !in refs ==> Search(refs, ref) == Rank(refs, ref)
  {
    if Sorted(refs) {
      SearchIs(refs, ref);
    }
  }

  /** The byte order swap of the relocation table, word by word. */
  method ReadTargets(file: seq<byte>, at: nat, n: nat) returns (ts: seq<u32>)
    requires at + 4 * n <= |file|
    ensures ts == ReadWords(file, at, n)
  {
    ts := [];
    var i := 0;
    while i < n
      invariant i <= n && |ts| == i
      invariant forall k :: 0 <= k < i ==> ts[k] == Bytes.ReadU32(file, at + 4 * k)
    {
      ts := ts + [Bytes.ReadU32(file, at + 4 * i)];
      i := i + 1;
    }
  }

  /** The byte order swap of a root or extern table, pair by pair. */
  method ReadInfoTable(file: seq<byte>, at: nat, n: nat) returns (es: seq<SymbolInfo>)
    requires at + 8 * n <= |file|
    ensures es == ReadInfos(file, at, n)
  {
    es := [];
    var i := 0;
    while i < n
      invariant i <= n && |es| == i
      invariant forall k :: 0 <= k < i ==> es[k] == SymbolInfo(Bytes.ReadU32(file, at + 8 * k), Bytes.ReadU32(file, at + 8 * k + 4))
    {
      es := es + [SymbolInfo(Bytes.ReadU32(file, at + 8 * i), Bytes.ReadU32(file, at + 8 * i + 4))];
      i := i + 1;
    }
  }

  /**
   * The body of `dat_file_import` past its size check: the sections copied
   * out of the file, the tables sorted, the object table built.
   */
  method ImportFile(file: seq<byte>) returns (s: Sections, objects: seq<u32>)
    requires |file| >= HEADER_SIZE && Importable(file)
    ensures Imported(file, s, objects)
  {
    var fileSize := Bytes.ReadU32(file, 0);
    var dataSize := Bytes.ReadU32(file, 4);
    var relocCount := Bytes.ReadU32(file, 8);
    var rootCount := Bytes.ReadU32(file, 12);
    var externCount := Bytes.ReadU32(file, 16);
    var relocStart := RelocStart(file);
    var rootStart := RootStart(file);
    var externStart := ExternStart(file);
    var symbolStart := SymbolStart(file);
    var d := file[HEADER_SIZE..relocStart];
    var read := ReadTargets(file, relocStart, relocCount);
    var targets := SortBy(read, Value);
    SortedByValue(targets);
    PermutedBound(read, targets, dataSize);
    var roots := ReadInfoTable(file, rootStart, rootCount);
    roots := SortBy(roots, DataOffset);
    var externs := ReadInfoTable(file, externStart, externCount);
    externs := SortBy(externs, DataOffset);
    var syms := file[symbolStart..fileSize];
    objects := FindObjects(d, targets, roots, externs);
    s := Sections(d, targets, roots, externs, syms);
  }

  /** The words at the relocation targets, then the root objects, then the extern objects. */
  method GatherObjects(data: seq<byte>, targets: seq<u32>, roots: seq<SymbolInfo>, externs: seq<SymbolInfo>)
    returns (values: seq<u32>)
    requires forall i :: 0 <= i < |targets| ==> targets[i] + 4 <= |data|
    ensures values == TargetValues(data, targets) + Offsets(roots) + Offsets(externs)
  {
    values := [];
    var i := 0;
    while i < |targets|
      invariant i <= |targets| && values == TargetValues(data, targets)[..i]
    {
      values := values + [ReadU32(data, targets[i])];
      i := i + 1;
    }
    i := 0;
    while i < |roots|
      invariant i <= |roots| && values == TargetValues(data, targets) + Offsets(roots)[..i]
    {
      values := values + [roots[i].dataOffset];
      i := i + 1;
    }
    i := 0;
    while i < |externs|
      invariant i <= |externs| && values == TargetValues(data, targets) + Offsets(roots) + Offsets(externs)[..i]
    {
      values := values + [externs[i].dataOffset];
      i := i + 1;
    }
    assert Offsets(externs)[..|externs|] == Offsets(externs);
  }

  /**
   * The deduplication of `dat_file_import`: a sorted table squeezed in
   * place by a read index `head` and a write index `base`, a value kept
   * when it differs from the last one kept.
   */
  method Dedup(sorted: seq<u32>) returns (objects: seq<u32>)
    ensures objects == DedupScan(sorted).0
  {
    objects := sorted;
    var lastRef := NO_REF;
    var head := 0;
    var base := 0;
    assert sorted[..0] == [];
    while head < |objects|
      invariant base <= head <= |objects| == |sorted|
      invariant objects[head..] == sorted[head..]
      invariant (objects[..base], lastRef) == DedupScan(sorted[..head])
    {
      var obj := objects[head];
      assert obj == sorted[head] by { assert objects[head..][0] == sorted[head..][0]; }
      assert objects[head + 1..] == sorted[head + 1..] by { assert objects[head + 1..] == objects[head..][1..]; }
      assert sorted[..head + 1][..head] == sorted[..head] && sorted[..head + 1][head] == obj;
      ghost var kept := objects[..base];
      if obj != lastRef {
        objects := objects[base := obj];
        assert objects[..base + 1] == kept + [obj];
        base := base + 1;
        lastRef := obj;
      }
      head := head + 1;
    }
    assert sorted[..head] == sorted;
    objects := objects[..base];
  }

  /**
   * The "find objects" part of `dat_file_import`: the words at the
   * relocation targets, then the root objects, then the extern objects,
   * sorted, then deduplicated.
   */
  method FindObjects(data: seq<byte>, targets: seq<u32>, roots: seq<SymbolInfo>, externs: seq<SymbolInfo>)
    returns (objects: seq<u32>)
    requires forall i :: 0 <= i < |targets| ==> targets[i] + 4 <= |data|
    ensures objects == ObjectStarts(TargetValues(data, targets) + Offsets(roots) + Offsets(externs))
    ensures ObjectTable(objects, TargetValues(data, targets) + Offsets(roots) + Offsets(externs))
  {
    var values := GatherObjects(data, targets, roots, externs);
    objects := Dedup(SortBy(values, Value));
  }

  /** The C `DatFile`. */
  class DatFile {
    var data: seq<byte>
    var relocTargets: seq<u32>
    var rootInfo: seq<SymbolInfo>
    var externInfo: seq<SymbolInfo>
    var symbols: seq<byte>
    var objects: seq<u32>

    /** The sections `dat_file_export` writes. */
    function Sections(): (s: Sections)
      reads this
      ensures s.data == data && s.relocTargets == relocTargets && s.rootInfo == rootInfo
      ensures s.externInfo == externInfo && s.symbols == symbols
    {
      CFormat.Sections(data, relocTargets, rootInfo, externInfo, symbols)
    }

    /** `dat_file_new`: every buffer empty. */
    constructor ()
      ensures data == [] && relocTargets == [] && rootInfo == [] && externInfo == []
      ensures symbols == [] && objects == []
    {
      data, relocTargets, rootInfo, externInfo, symbols, objects := [], [], [], [], [], [];
    }

    /**
     * `dat_file_import(file, |file|, this)`. The file is first reset to
     * empty; `InvalidSize` when the header's file size exceeds the buffer.
     * Otherwise the sections are copied, the three tables sorted by data
     * offset and the object table built. The source reads the header before
     * any check and trusts the section sizes and relocation targets, hence
     * the preconditions.
     */
    method Import(file: seq<byte>) returns (ret: Status)
      requires |file| >= HEADER_SIZE
      requires Bytes.ReadU32(file, 0) <= |file| ==> Importable(file)
      modifies this
      ensures ret == InvalidSize <==> Bytes.ReadU32(file, 0) > |file|
      ensures ret == InvalidSize || ret == Ok
      ensures ret == InvalidSize ==>
        data == [] && relocTargets == [] && rootInfo == [] && externInfo == [] && symbols == [] && objects == []
      ensures ret == Ok ==> Importable(file) && Imported(file, Sections(), objects)
    {
      data, relocTargets, rootInfo, externInfo, symbols, objects := [], [], [], [], [], [];
      var fileSize := Bytes.ReadU32(file, 0);
      if fileSize > |file| {
        return InvalidSize;
      }
      var s, objs := ImportFile(file);
      data, relocTargets, rootInfo, externInfo, symbols, objects := s.data, s.relocTargets, s.rootInfo, s.externInfo, s.symbols, objs;
      ret := Ok;
    }

    /** `dat_file_export_max_size`: the export size summed in u32 arithmetic. */
    function ExportMaxSize(): (n: u32)
      reads this
      ensures ExportSize(Sections()) < U32_LIMIT ==> n == ExportSize(Sections())
    {
      Trunc32(ExportSize(Sections()))
    }

    /**
     * `dat_file_export(this, out, &size)` into a buffer at least
     * `dat_file_export_max_size` long: the header fields after the size,
     * twelve zero bytes, the sections through a cursor, and finally the
     * size itself at offset 0. No byte past the size is written.
     */
    method Export(out: array<byte>) returns (ret: Status, size: u32)
      requires ExportSize(Sections()) < U32_LIMIT && ExportSize(Sections()) <= out.Length
      modifies out
      ensures ret == Ok && size as nat == ExportSize(Sections())
      ensures out[..size] == ExportImage(Sections()) && out[size..] == old(out[size..])
    {
      ghost var s := Sections();
      ghost var before := out[..];
      var w, cursor := PutHeader(out, before, |data|, |relocTargets|, |rootInfo|, |externInfo|);
      w, cursor := PutBody(out, before, w, cursor, data, relocTargets, rootInfo, externInfo, symbols);
      assert w == ExportTail(s);
      size := cursor;
      ghost var prev := out[..];
      Store(out, 0, BE32(size));
      ExportImageSplit(s);
      Finish(before, prev, out[..], w, BE32(size), size);
      ret := Ok;
    }

    /** `dat_file_reloc_idx(ref)`: the binary search over the relocation table. */
    method RelocIdx(ref: u32) returns (idx: u32)
      requires |relocTargets| < U32_LIMIT
      ensures idx as nat == Search(relocTargets, ref)
      ensures Sorted(relocTargets) && ref in relocTargets ==> idx as nat < |relocTargets| && relocTargets[idx] == ref
      ensures Sorted(relocTargets) && ref !in relocTargets ==> idx as nat == Rank(relocTargets, ref)
    {
      idx := BinarySearchRefs(relocTargets, ref);
    }

    /**
     * `dat_obj_alloc(size)`: a new object at `align_forward(data_size, 4)`,
     * appended to the object table, and `data_size` set to its end, both in
     * u32 arithmetic. Without wrap-around the object is `size` bytes past the
     * old data, aligned to 4; an end at or past 2^32 wraps, and the data
     * shrinks to the wrapped size. New bytes are uninitialized: their
     * contents are not specified.
     */
    method ObjAlloc(size: u32) returns (ret: Status, offset: u32)
      requires |data| < U32_LIMIT && |objects| + 1 < U32_LIMIT
      modifies this
      ensures ret == Ok && offset == AlignForward(|old(data)|, 4) && |data| == Trunc32(offset + size)
      ensures |old(data)| + 3 + size < U32_LIMIT ==>
        offset % 4 == 0 && |old(data)| <= offset < |old(data)| + 4 && |data| == offset + size
      ensures |data| <= |old(data)| ==> data == old(data)[..|data|]
      ensures |old(data)| <= |data| ==> data[..|old(data)|] == old(data)
      ensures objects == old(objects) + [offset]
      ensures relocTargets == old(relocTargets) && rootInfo == old(rootInfo)
      ensures externInfo == old(externInfo) && symbols == old(symbols)
    {
      if |data| + 3 + size < U32_LIMIT {
        AlignedTo4(|data|);
      }
      offset := AlignForward(|data|, 4);
      var newDataSize := Trunc32(offset + size);
      objects := objects + [offset];
      if newDataSize <= |data| {
        data := data[..newDataSize];
      } else {
        data := data + Zeros(newDataSize - |data|);
      }
      ret := Ok;
    }

    /**
     * `dat_obj_set_ref(from, to)`: record `from` as a relocation target and
     * store `to` there. A misaligned `from`, a word the u32 check puts past
     * the data or a `to` outside it is refused and changes nothing. The one
     * aligned `from` whose sum wraps, 0xFFFF_FFFC, passes the check
     * (`OverrunExactlyAtWrap`), and with an in-range `to` the source writes
     * outside the buffer; the model requires that case away.
     */
    method SetRef(from: u32, to: u32) returns (ret: Status)
      requires Sorted(relocTargets) && |relocTargets| + 1 < U32_LIMIT && |data| < U32_LIMIT
      requires from % 4 == 0 && to < |data| ==> from + 4 < U32_LIMIT
      modifies this
      ensures from % 4 != 0 ==> ret == InvalidAlignment
      ensures from % 4 == 0 && !InBoundsAsWritten(from, 4, |old(data)|) ==> ret == OutOfBounds
      ensures from % 4 == 0 && InBoundsAsWritten(from, 4, |old(data)|) && to >= |old(data)| ==> ret == OutOfBounds
      ensures ret != Ok ==> data == old(data) && relocTargets == old(relocTargets)
      ensures ret == Ok <==> from % 4 == 0 && InBoundsAsWritten(from, 4, |old(data)|) && to < |old(data)|
      ensures ret == Ok ==> from + 4 <= |old(data)|
      ensures ret == Ok ==>
        relocTargets == WithRef(old(relocTargets), from) && data == Bytes.WriteU32(old(data), from, to)
      ensures rootInfo == old(rootInfo) && externInfo == old(externInfo)
      ensures symbols == old(symbols) && objects == old(objects)
    {
      if from % 4 != 0 {
        return InvalidAlignment;
      }
      if !InBoundsAsWritten(from, 4, |data|) {
        return OutOfBounds;
      }
      if to >= |data| {
        return OutOfBounds;
      }
      InBoundsAgrees(from, 4, |data|);
      var targets := relocTargets;
      var idx := RelocIdx(from);
      if idx as nat == |targets| || targets[idx] != from {
        targets := targets[..idx] + [from] + targets[idx..];
      }
      relocTargets := targets;
      data := Bytes.WriteU32(data, from, to);
      ret := Ok;
    }

    /**
     * `dat_obj_remove_ref(from)`: delete the target the binary search finds.
     * The source deletes whatever is at that index, so `from` must be
     * present; a misaligned `from` is refused.
     */
    method RemoveRef(from: u32) returns (ret: Status)
      requires Sorted(relocTargets) && |relocTargets| < U32_LIMIT
      requires from % 4 == 0 ==> from in relocTargets
      modifies this
      ensures from % 4 != 0 ==> ret == InvalidAlignment && relocTargets == old(relocTargets)
      ensures from % 4 == 0 ==> ret == Ok && relocTargets == WithoutRef(old(relocTargets), from)
      ensures data == old(data) && rootInfo == old(rootInfo) && externInfo == old(externInfo)
      ensures symbols == old(symbols) && objects == old(objects)
    {
      if from % 4 != 0 {
        return InvalidAlignment;
      }
      var targets := relocTargets;
      var idx := RelocIdx(from);
      RemoveAnyCopy(targets, idx as nat, from);
      relocTargets := targets[..idx] + targets[idx + 1..];
      ret := Ok;
    }

    /**
     * `dat_obj_read_u32` (and `dat_obj_read_ref`), bounds checked in u32 as
     * the source does. The aligned `ptr` whose sum wraps, 0xFFFF_FFFC,
     * passes that check and reads outside the buffer
     * (`OverrunExactlyAtWrap`); the model requires it away.
     */
    method ReadU32(ptr: u32) returns (ret: Status, value: u32)
      requires |data| < U32_LIMIT && (ptr % 4 == 0 ==> ptr + 4 < U32_LIMIT)
      ensures ptr % 4 != 0 ==> ret == InvalidAlignment
      ensures ptr % 4 == 0 && !InBoundsAsWritten(ptr, 4, |data|) ==> ret == OutOfBounds
      ensures ret == Ok <==> ptr % 4 == 0 && InBoundsAsWritten(ptr, 4, |data|)
      ensures ret == Ok ==> ptr + 4 <= |data| && value == Bytes.ReadU32(data, ptr) && BE32(value) == data[ptr..ptr + 4]
    {
      if ptr % 4 != 0 {
        return InvalidAlignment, 0;
      }
      if !InBoundsAsWritten(ptr, 4, |data|) {
        return OutOfBounds, 0;
      }
      InBoundsAgrees(ptr, 4, |data|);
      value := Bytes.ReadU32(data, ptr);
      ReadU32Bytes(data, ptr);
      ret := Ok;
    }

    /** `dat_obj_read_u16`, checked in u32; the wrapping `ptr` 0xFFFF_FFFE is required away. */
    method ReadU16(ptr: u32) returns (ret: Status, value: u16)
      requires |data| < U32_LIMIT && (ptr % 2 == 0 ==> ptr + 2 < U32_LIMIT)
      ensures ptr % 2 != 0 ==> ret == InvalidAlignment
      ensures ptr % 2 == 0 && !InBoundsAsWritten(ptr, 2, |data|) ==> ret == OutOfBounds
      ensures ret == Ok <==> ptr % 2 == 0 && InBoundsAsWritten(ptr, 2, |data|)
      ensures ret == Ok ==> ptr + 2 <= |data| && value == Bytes.ReadU16(data, ptr) && BE16(value) == data[ptr..ptr + 2]
    {
      if ptr % 2 != 0 {
        return InvalidAlignment, 0;
      }
      if !InBoundsAsWritten(ptr, 2, |data|) {
        return OutOfBounds, 0;
      }
      InBoundsAgrees(ptr, 2, |data|);
      value := Bytes.ReadU16(data, ptr);
      ReadU16Bytes(data, ptr);
      ret := Ok;
    }

    /** `dat_obj_read_u8`, checked in u32; the wrapping `ptr` 0xFFFF_FFFF is required away. */
    method ReadU8(ptr: u32) returns (ret: Status, value: byte)
      requires |data| < U32_LIMIT && ptr + 1 < U32_LIMIT
      ensures ret == Ok <==> InBoundsAsWritten(ptr, 1, |data|)
      ensures ret != Ok ==> ret == OutOfBounds
      ensures ret == Ok ==> ptr < |data| && value == data[ptr]
    {
      if !InBoundsAsWritten(ptr, 1, |data|) {
        return OutOfBounds, 0;
      }
      InBoundsAgrees(ptr, 1, |data|);
      value := data[ptr];
      ret := Ok;
    }

    /**
     * `dat_obj_write_u32`: the big-endian bytes of `num` at `ptr`, nothing
     * else changed, checked in u32; the wrapping `ptr` 0xFFFF_FFFC, which
     * would write outside the buffer, is required away.
     */
    method WriteU32(ptr: u32, num: u32) returns (ret: Status)
      requires |data| < U32_LIMIT && (ptr % 4 == 0 ==> ptr + 4 < U32_LIMIT)
      modifies this
      ensures ptr % 4 != 0 ==> ret == InvalidAlignment
      ensures ptr % 4 == 0 && !InBoundsAsWritten(ptr, 4, |old(data)|) ==> ret == OutOfBounds
      ensures ret == Ok <==> ptr % 4 == 0 && InBoundsAsWritten(ptr, 4, |old(data)|)
      ensures ret == Ok ==> ptr + 4 <= |old(data)|
      ensures data == if ret == Ok then Bytes.WriteU32(old(data), ptr, num) else old(data)
      ensures relocTargets == old(relocTargets) && rootInfo == old(rootInfo) && externInfo == old(externInfo)
      ensures symbols == old(symbols) && objects == old(objects)
    {
      if ptr % 4 != 0 {
        return InvalidAlignment;
      }
      if !InBoundsAsWritten(ptr, 4, |data|) {
        return OutOfBounds;
      }
      InBoundsAgrees(ptr, 4, |data|);
      data := Bytes.WriteU32(data, ptr, num);
      ret := Ok;
    }

    /** `dat_obj_write_u16`, checked in u32; the wrapping `ptr` 0xFFFF_FFFE is required away. */
    method WriteU16(ptr: u32, num: u16) returns (ret: Status)
      requires |data| < U32_LIMIT && (ptr % 2 == 0 ==> ptr + 2 < U32_LIMIT)
      modifies this
      ensures ptr % 2 != 0 ==> ret == InvalidAlignment
      ensures ptr % 2 == 0 && !InBoundsAsWritten(ptr, 2, |old(data)|) ==> ret == OutOfBounds
      ensures ret == Ok <==> ptr % 2 == 0 && InBoundsAsWritten(ptr, 2, |old(data)|)
      ensures ret == Ok ==> ptr + 2 <= |old(data)|
      ensures data == if ret == Ok then Bytes.WriteU16(old(data), ptr, num) else old(data)
      ensures relocTargets == old(relocTargets) && rootInfo == old(rootInfo) && externInfo == old(externInfo)
      ensures symbols == old(symbols) && objects == old(objects)
    {
      if ptr % 2 != 0 {
        return InvalidAlignment;
      }
      if !InBoundsAsWritten(ptr, 2, |data|) {
        return OutOfBounds;
      }
      InBoundsAgrees(ptr, 2, |data|);
      data := Bytes.WriteU16(data, ptr, num);
      ret := Ok;
    }

    /** `dat_obj_write_u8`, checked in u32; the wrapping `ptr` 0xFFFF_FFFF is required away. */
    method WriteU8(ptr: u32, num: byte) returns (ret: Status)
      requires |data| < U32_LIMIT && ptr + 1 < U32_LIMIT
      modifies this
      ensures ret == Ok <==> InBoundsAsWritten(ptr, 1, |old(data)|)
      ensures ret != Ok ==> ret == OutOfBounds
      ensures ret == Ok ==> ptr < |old(data)|
      ensures data == if ret == Ok then old(data)[ptr := num] else old(data)
      ensures relocTargets == old(relocTargets) && rootInfo == old(rootInfo) && externInfo == old(externInfo)
      ensures symbols == old(symbols) && objects == old(objects)
    {
      if !InBoundsAsWritten(ptr, 1, |data|) {
        return OutOfBounds;
      }
      InBoundsAgrees(ptr, 1, |data|);
      data := data[ptr := num];
      ret := Ok;
    }

    /**
     * `dat_root_add(index, rootObj, symbol)`: the name and its NUL appended
     * to the symbol table, and a root naming it inserted at `index`, later
     * roots shifting up. `symbol` is a C string, so it holds no NUL.
     */
    method RootAdd(index: u32, rootObj: u32, symbol: seq<byte>) returns (ret: Status)
      requires 0 !in symbol && |symbols| + |symbol| + 1 < U32_LIMIT
      modifies this
      ensures rootObj % 4 != 0 ==> ret == InvalidAlignment
      ensures rootObj % 4 == 0 && index as nat > |old(rootInfo)| ==> ret == OutOfBounds
      ensures ret == Ok <==> rootObj % 4 == 0 && index as nat <= |old(rootInfo)|
      ensures ret != Ok ==> symbols == old(symbols) && rootInfo == old(rootInfo)
      ensures ret == Ok ==>
        symbols == old(symbols) + symbol + [0] &&
        rootInfo == InsertRoot(old(rootInfo), index as nat, SymbolInfo(rootObj, |old(symbols)|))
      ensures data == old(data) && relocTargets == old(relocTargets) && externInfo == old(externInfo)
      ensures objects == old(objects)
    {
      if rootObj % 4 != 0 {
        return InvalidAlignment;
      }
      var rootCount := |rootInfo|;
      if index as nat > rootCount {
        return OutOfBounds;
      }
      var symbolStart := |symbols|;
      symbols := symbols + symbol + [0];
      rootInfo := InsertRoot(rootInfo, index as nat, SymbolInfo(rootObj, symbolStart));
      ret := Ok;
    }

    /** `dat_root_remove(index)`: the root at `index` deleted, the others kept in order. */
    method RootRemove(index: u32) returns (ret: Status)
      modifies this
      ensures ret == Ok <==> index as nat < |old(rootInfo)|
      ensures ret != Ok ==> ret == OutOfBounds && rootInfo == old(rootInfo)
      ensures ret == Ok ==> rootInfo == old(rootInfo)[..index] + old(rootInfo)[index + 1..]
      ensures data == old(data) && relocTargets == old(relocTargets) && externInfo == old(externInfo)
      ensures symbols == old(symbols) && objects == old(objects)
    {
      if index as nat >= |rootInfo| {
        return OutOfBounds;
      }
      rootInfo := rootInfo[..index] + rootInfo[index + 1..];
      ret := Ok;
    }

    /**
     * `dat_root_find(name)`: the object of the first root whose name equals
     * `name`, compared byte by byte up to the NUL; `NotFound` otherwise.
     */
    method RootFind(name: seq<byte>) returns (ret: Status, offset: u32)
      requires 0 !in name && NamesTerminated(symbols, rootInfo)
      ensures ret == Ok <==> FindRoot(rootInfo, symbols, name).Some?
      ensures ret != Ok ==> ret == NotFound
      ensures ret == Ok ==> offset == FindRoot(rootInfo, symbols, name).value
    {
      var roots, syms := rootInfo, symbols;
      var rootI := 0;
      while rootI < |roots|
        invariant rootI <= |roots|
        invariant forall j :: 0 <= j < rootI ==> CString(syms, roots[j].symbolOffset) != name
      {
        var info := roots[rootI];
        var same := NameIs(syms, info.symbolOffset, name);
        if same {
          assert FirstNamed(roots, syms, name) == rootI;
          return Ok, info.dataOffset;
        }
        rootI := rootI + 1;
      }
      return NotFound, 0;
    }

    /**
     * `dat_obj_location(ptr)`: the binary search over the object starts,
     * then the steps back to a start at most `ptr`, as `Location` defines
     * them on any table. On sorted starts this is the start `ObjectAt`
     * picks, with its slice or, when that start is duplicated (an empty
     * allocation followed by another), an empty one; on strictly ascending
     * starts exactly `ObjectAt`.
     */
    method ObjLocation(ptr: u32) returns (ret: Status, slice: Slice)
      requires |objects| < U32_LIMIT && |data| < U32_LIMIT
      ensures ret == Ok <==> Location(objects, |data|, ptr).Some?
      ensures ret != Ok ==> ret == NotFound
      ensures ret == Ok ==> slice == Location(objects, |data|, ptr).value
      ensures Sorted(objects) ==> (ret == Ok <==> ObjectAt(objects, |data|, ptr).Some?)
      ensures Sorted(objects) && ret == Ok ==>
        slice.offset == ObjectAt(objects, |data|, ptr).value.offset &&
        (slice == ObjectAt(objects, |data|, ptr).value || slice.size == 0)
      ensures StrictlySorted(objects) && ret == Ok ==> slice == ObjectAt(objects, |data|, ptr).value
    {
      LocationFacts(objects, |data|, ptr);
      var idx := LocateIndex(objects, ptr);
      if idx < 0 {
        return NotFound, Slice(0, 0);
      }
      var offset := objects[idx];
      var end: u32;
      if idx + 1 < |objects| {
        end := objects[idx + 1];
      } else {
        end := |data|;
      }
      slice := Slice(offset, Trunc32(end - offset));
      ret := Ok;
    }
  }

  /**
   * The index steps of `dat_obj_location`: the binary search, the step back
   * from the end of the table, and the step back from a start past `ptr`.
   */
  method LocateIndex(objs: seq<u32>, ptr: u32) returns (k: int)
    requires |objs| < U32_LIMIT
    ensures k == LocatedIndex(objs, ptr)
  {
    if |objs| == 0 {
      return -1;
    }
    var idx := BinarySearchRefs(objs, ptr);
    if idx as nat == |objs| {
      idx := idx - 1;
    }
    if objs[idx] > ptr {
      if idx == 0 {
        return -1;
      }
      idx := idx - 1;
    }
    if objs[idx] > ptr {
      return -1;
    }
    return idx as int;
  }

  /** `LocationSorted` and `LocationStrict`, stated for any table. */
  lemma LocationFacts(objects: seq<u32>, dataSize: u32, ptr: u32)
    ensures Sorted(objects) ==>
      (Location(objects, dataSize, ptr).Some? <==> ObjectAt(objects, dataSize, ptr).Some?)
    ensures Sorted(objects) && Location(objects, dataSize, ptr).Some? ==>
      var sl, at := Location(objects, dataSize, ptr).value, ObjectAt(objects, dataSize, ptr).value;
      sl.offset == at.offset && (sl == at || sl.size == 0)
    ensures StrictlySorted(objects) ==> Location(objects, dataSize, ptr) == ObjectAt(objects, dataSize, ptr)
  {
    if Sorted(objects) {
      LocationSorted(objects, dataSize, ptr);
    }
    if StrictlySorted(objects) {
      LocationStrict(objects, dataSize, ptr);
    }
  }

  /** `memcpy`/`memset`/`WRITE_U32` into a caller's buffer: `b` stored at `at`. */
  method Store(out: array<byte>, at: nat, b: seq<byte>)
    requires at + |b| <= out.Length
    modifies out
    ensures out[..] == old(out[..])[..at] + b + old(out[..])[at + |b|..]
  {
    forall i | 0 <= i < |b| {
      out[at + i] := b[i];
    }
  }

  /** A store right after the bytes written so far extends them. */
  lemma Extend(before: seq<byte>, cur: seq<byte>, next: seq<byte>, w: seq<byte>, b: seq<byte>)
    requires 4 + |w| + |b| <= |before|
    requires cur == before[..4] + w + before[4 + |w|..]
    requires next == cur[..4 + |w|] + b + cur[4 + |w| + |b|..]
    ensures next == before[..4] + (w + b) + before[4 + |w| + |b|..]
  {
    var p := before[..4] + w;
    assert cur == p + before[|p|..];
    assert cur[..|p|] == p;
    assert cur[|p| + |b|..] == before[|p|..][|b|..] == before[|p| + |b|..];
  }

  /**
   * `b` stored at the cursor of an export in progress, `w` being the bytes
   * already written after offset 4, and the cursor moved past it.
   */
  method Put(out: array<byte>, ghost before: seq<byte>, ghost w: seq<byte>, cursor: nat, b: seq<byte>)
    returns (ghost w': seq<byte>, cursor': nat)
    requires |before| == out.Length && cursor == 4 + |w| && cursor + |b| <= out.Length
    requires out[..] == before[..4] + w + before[cursor..]
    modifies out
    ensures w' == w + b && cursor' == cursor + |b|
    ensures out[..] == before[..4] + w' + before[cursor'..]
  {
    ghost var prev := out[..];
    Store(out, cursor, b);
    Extend(before, prev, out[..], w, b);
    w', cursor' := w + b, cursor + |b|;
  }

  /** The header fields after the size, and the twelve zero bytes. */
  method PutHeader(out: array<byte>, ghost before: seq<byte>, dataSize: u32, relocCount: u32, rootCount: u32,
                   externCount: u32) returns (ghost w: seq<byte>, cursor: nat)
    requires |before| == out.Length && HEADER_SIZE <= out.Length && out[..] == before
    modifies out
    ensures w == Words([dataSize, relocCount, rootCount, externCount]) + Zeros(12) && cursor == HEADER_SIZE
    ensures out[..] == before[..4] + w + before[cursor..]
  {
    w, cursor := [], 4;
    w, cursor := Put(out, before, w, cursor, BE32(dataSize));
    w, cursor := Put(out, before, w, cursor, BE32(relocCount));
    w, cursor := Put(out, before, w, cursor, BE32(rootCount));
    w, cursor := Put(out, before, w, cursor, BE32(externCount));
    HeaderCounts(dataSize, relocCount, rootCount, externCount, w);
    w, cursor := Put(out, before, w, cursor, Zeros(12));
  }

  /** The sections of `dat_file_export`, one after the other from the cursor. */
  method PutBody(out: array<byte>, ghost before: seq<byte>, ghost w: seq<byte>, cursor: nat, d: seq<byte>,
                 targets: seq<u32>, roots: seq<SymbolInfo>, externs: seq<SymbolInfo>, syms: seq<byte>)
    returns (ghost w': seq<byte>, cursor': nat)
    requires |before| == out.Length && cursor == 4 + |w|
    requires cursor + |d| + 4 * |targets| + 8 * |roots| + 8 * |externs| + |syms| <= out.Length
    requires out[..] == before[..4] + w + before[cursor..]
    modifies out
    ensures w' == w + d + Words(targets) + Words(EntryWords(roots)) + Words(EntryWords(externs)) + syms
    ensures cursor' == 4 + |w'| && out[..] == before[..4] + w' + before[cursor'..]
  {
    w', cursor' := Put(out, before, w, cursor, d);
    w', cursor' := PutWords(out, before, w', cursor', targets);
    w', cursor' := PutInfos(out, before, w', cursor', roots);
    w', cursor' := PutInfos(out, before, w', cursor', externs);
    w', cursor' := Put(out, before, w', cursor', syms);
  }

  /** The relocation loop of `dat_file_export`: each target as a word at the cursor. */
  method PutWords(out: array<byte>, ghost before: seq<byte>, ghost w: seq<byte>, cursor: nat, ts: seq<u32>)
    returns (ghost w': seq<byte>, cursor': nat)
    requires |before| == out.Length && cursor == 4 + |w| && cursor + 4 * |ts| <= out.Length
    requires out[..] == before[..4] + w + before[cursor..]
    modifies out
    ensures w' == w + Words(ts) && cursor' == cursor + 4 * |ts|
    ensures out[..] == before[..4] + w' + before[cursor'..]
  {
    w', cursor' := w, cursor;
    var i := 0;
    assert ts[..0] == [];
    while i < |ts|
      invariant i <= |ts| && cursor' == cursor + 4 * i && w' == w + Words(ts[..i])
      invariant out[..] == before[..4] + w' + before[cursor'..]
    {
      ghost var t := ts[..i];
      w', cursor' := Put(out, before, w', cursor', BE32(ts[i]));
      PushWord(t, ts[i]);
      assert ts[..i + 1] == t + [ts[i] as nat];
      Assoc(w, Words(t), BE32(ts[i]), w');
      i := i + 1;
    }
    assert ts[..i] == ts;
  }

  /**
   * The root or extern loop of `dat_file_export`: each entry's data offset
   * and symbol offset, as two words at the cursor.
   */
  method PutInfos(out: array<byte>, ghost before: seq<byte>, ghost w: seq<byte>, cursor: nat, es: seq<SymbolInfo>)
    returns (ghost w': seq<byte>, cursor': nat)
    requires |before| == out.Length && cursor == 4 + |w| && cursor + 8 * |es| <= out.Length
    requires out[..] == before[..4] + w + before[cursor..]
    modifies out
    ensures w' == w + Words(EntryWords(es)) && cursor' == cursor + 8 * |es|
    ensures out[..] == before[..4] + w' + before[cursor'..]
  {
    w', cursor' := w, cursor;
    var i := 0;
    assert es[..0] == [];
    while i < |es|
      invariant i <= |es| && cursor' == cursor + 8 * i && w' == w + Words(EntryWords(es[..i]))
      invariant out[..] == before[..4] + w' + before[cursor'..]
    {
      ghost var t := EntryWords(es[..i]);
      ghost var t1 := t + [es[i].dataOffset as nat];
      EntryWordsNext(es, i);
      w', cursor' := Put(out, before, w', cursor', BE32(es[i].dataOffset));
      PushWord(t, es[i].dataOffset);
      Assoc(w, Words(t), BE32(es[i].dataOffset), w');
      w', cursor' := Put(out, before, w', cursor', BE32(es[i].symbolOffset));
      PushWord(t1, es[i].symbolOffset);
      assert t1 + [es[i].symbolOffset as nat] == EntryWords(es[..i + 1]);
      Assoc(w, Words(t1), BE32(es[i].symbolOffset), w');
      i := i + 1;
    }
    assert es[..i] == es;
  }

  /** The four count words of the header, written one by one. */
  lemma HeaderCounts(a: u32, b: u32, c: u32, d: u32, w: seq<byte>)
    requires w == [] + BE32(a) + BE32(b) + BE32(c) + BE32(d)
    ensures w == Words([a, b, c, d])
  {
    var t: seq<nat> := [a, b, c, d];
    assert t[1..] == [b, c, d] && t[2..] == [c, d] && t[3..] == [d] && t[4..] == [];
    assert Words(t[3..]) == BE32(d);
    assert Words(t[2..]) == BE32(c) + BE32(d);
    assert Words(t[1..]) == BE32(b) + (BE32(c) + BE32(d));
    assert Words(t) == BE32(a) + (BE32(b) + (BE32(c) + BE32(d)));
  }

  /** Storing the size word in front of the rest finishes the file. */
  lemma Finish(before: seq<byte>, cur: seq<byte>, next: seq<byte>, w: seq<byte>, b: seq<byte>, size: nat)
    requires |b| == 4 && size == 4 + |w| <= |before|
    requires cur == before[..4] + w + before[size..]
    requires next == cur[..0] + b + cur[4..]
    ensures next[..size] == b + w && next[size..] == before[size..]
  {
    assert cur[4..] == w + before[size..];
  }

  /**
   * The inner loop of `dat_root_find`: bytes of the stored name and of
   * `name` (whose NUL follows its last byte) compared until they differ or
   * both are NUL.
   */
  method NameIs(symbols: seq<byte>, at: nat, name: seq<byte>) returns (same: bool)
    requires 0 !in name && Terminated(symbols, at)
    ensures same <==> CString(symbols, at) == name
  {
    var i := 0;
    while true
      invariant i <= |name| && at + i <= NulFrom(symbols, at)
      invariant symbols[at..at + i] == name[..i]
      decreases |name| - i
    {
      var a := symbols[at + i];
      var b := if i < |name| then name[i] else 0;
      if a != b {
        return false;
      }
      if a == 0 {
        assert i == |name|;
        assert NulFrom(symbols, at) == at + i;
        return true;
      }
      assert symbols[at..at + i + 1] == symbols[at..at + i] + [a];
      assert name[..i + 1] == name[..i] + [b];
      i := i + 1;
    }
  }

  /** In a sorted table every copy of `x` leaves the same table when removed. */
  lemma RemoveAnyCopy(s: seq<u32>, k: nat, x: u32)
    requires Sorted(s) && k < |s| && s[k] == x
    ensures x in s && s[..k] + s[k + 1..] == WithoutRef(s, x)
  {
    RemoveElements(s, k);
    SortedUnique(s[..k] + s[k + 1..], WithoutRef(s, x));
  }
}
