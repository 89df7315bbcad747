/**
 * The three scenarios of the C library's test program (`tests.c`), run on
 * one `DatFile` in the order the program runs them: each step's expected
 * values are the postconditions of its method.
 */
module CDatTests {

  import opened Bytes
  import opened CFormat
  import opened CDatFile

  /** The C strings "root1", "root2" and "root3". */
  const ROOT1: seq<byte> := [0x72, 0x6F, 0x6F, 0x74, 0x31]
  const ROOT2: seq<byte> := [0x72, 0x6F, 0x6F, 0x74, 0x32]
  const ROOT3: seq<byte> := [0x72, 0x6F, 0x6F, 0x74, 0x33]

  /** "allocate objects": 256, 33, 0 and 8 bytes from a new file. */
  method AllocateObjects(dat: DatFile) returns (objs: seq<u32>)
    requires dat.data == [] && dat.objects == []
    modifies dat
    ensures objs == [0, 256, 292, 292] && dat.objects == objs && |dat.data| == 300
    ensures dat.relocTargets == old(dat.relocTargets) && dat.rootInfo == old(dat.rootInfo)
    ensures dat.externInfo == old(dat.externInfo) && dat.symbols == old(dat.symbols)
  {
    var _, obj1 := dat.ObjAlloc(256);
    var _, obj2 := dat.ObjAlloc(33);
    var _, obj3 := dat.ObjAlloc(0);
    var _, obj4 := dat.ObjAlloc(8);
    objs := [obj1, obj2, obj3, obj4];
  }

  /** The symbol table after the three `dat_root_add` calls of "add and remove root nodes". */
  const ROOT_SYMBOLS: seq<byte> := ROOT2 + [0] + ROOT3 + [0] + ROOT1 + [0]

  /** The three names read back from where `dat_root_add` stored them. */
  lemma RootNames()
    ensures Terminated(ROOT_SYMBOLS, 0) && CString(ROOT_SYMBOLS, 0) == ROOT2
    ensures Terminated(ROOT_SYMBOLS, 6) && CString(ROOT_SYMBOLS, 6) == ROOT3
    ensures Terminated(ROOT_SYMBOLS, 12) && CString(ROOT_SYMBOLS, 12) == ROOT1
  {
    var s1 := ROOT2 + [0];
    var s2 := s1 + ROOT3 + [0];
    AppendedName([], ROOT2);
    assert [] + ROOT2 + [0] == s1;
    AppendedName(s1, ROOT3);
    AppendKeepsName(s1, ROOT3 + [0], 0);
    assert s1 + (ROOT3 + [0]) == s2;
    AppendedName(s2, ROOT1);
    AppendKeepsName(s2, ROOT1 + [0], 0);
    AppendKeepsName(s2, ROOT1 + [0], 6);
    assert s2 + (ROOT1 + [0]) == ROOT_SYMBOLS;
  }

  /**
   * "add and remove root nodes": three 128-byte objects, named as roots
   * out of order (index 0, then 1, then 0 again), then the middle root
   * removed. Each root's name is found where it was stored.
   */
  method AddRemoveRoots(dat: DatFile) returns (refs: seq<u32>, added: seq<SymbolInfo>, removed: seq<SymbolInfo>)
    requires |dat.data| == 300 && |dat.objects| == 4 && dat.rootInfo == [] && dat.symbols == []
    modifies dat
    ensures |refs| == 3 && refs[0] == 300 && refs[1] == 428 && refs[2] == 556
    ensures |dat.data| == 684 && |dat.objects| == 7 && dat.symbols == ROOT_SYMBOLS
    ensures |added| == 3 && added[0] == SymbolInfo(refs[0], 12) && added[1] == SymbolInfo(refs[1], 0)
    ensures added[2] == SymbolInfo(refs[2], 6)
    ensures NamesTerminated(dat.symbols, added)
    ensures CString(dat.symbols, added[0].symbolOffset) == ROOT1
    ensures CString(dat.symbols, added[1].symbolOffset) == ROOT2
    ensures CString(dat.symbols, added[2].symbolOffset) == ROOT3
    ensures |removed| == 2 && removed[0] == added[0] && removed[1] == added[2] && dat.rootInfo == removed
    ensures dat.relocTargets == old(dat.relocTargets)
  {
    refs := AllocateRoots(dat);
    added := AddRoots(dat, refs);
    RootNames();
    var _ := dat.RootRemove(1);
    removed := dat.rootInfo;
  }

  /** The three objects of "add and remove root nodes", after the 300 bytes of "allocate objects". */
  method AllocateRoots(dat: DatFile) returns (refs: seq<u32>)
    requires |dat.data| == 300 && |dat.objects| == 4
    modifies dat
    ensures |refs| == 3 && refs[0] == 300 && refs[1] == 428 && refs[2] == 556
    ensures |dat.data| == 684 && |dat.objects| == 7
    ensures dat.relocTargets == old(dat.relocTargets) && dat.rootInfo == old(dat.rootInfo)
    ensures dat.symbols == old(dat.symbols)
  {
    var _, root1 := dat.ObjAlloc(128);
    var _, root2 := dat.ObjAlloc(128);
    var _, root3 := dat.ObjAlloc(128);
    refs := [root1, root2, root3];
  }

  /** `dat_root_add` of "root2" at 0, "root3" at 1 and "root1" at 0. */
  method AddRoots(dat: DatFile, refs: seq<u32>) returns (added: seq<SymbolInfo>)
    requires |refs| == 3 && refs[0] == 300 && refs[1] == 428 && refs[2] == 556
    requires dat.rootInfo == [] && dat.symbols == []
    modifies dat
    ensures |added| == 3 && added[0] == SymbolInfo(300, 12) && added[1] == SymbolInfo(428, 0)
    ensures added[2] == SymbolInfo(556, 6) && dat.rootInfo == added && dat.symbols == ROOT_SYMBOLS
    ensures dat.data == old(dat.data) && dat.objects == old(dat.objects)
    ensures dat.relocTargets == old(dat.relocTargets)
  {
    var _ := dat.RootAdd(0, refs[1], ROOT2);
    var _ := dat.RootAdd(1, refs[2], ROOT3);
    var _ := dat.RootAdd(0, refs[0], ROOT1);
    added := dat.rootInfo;
  }

  /** Three targets set in ascending order make a table of the three, in that order. */
  lemma ThreeRefs(a: u32, b: u32, c: u32)
    requires a < b < c
    ensures var t := WithRef(WithRef(WithRef([], a), b), c);
      |t| == 3 && t[0] == a && t[1] == b && t[2] == c
  {
    var s1 := WithRef([], a);
    WithRefAppends([], a);
    var s2 := WithRef(s1, b);
    WithRefAppends(s1, b);
    WithRefAppends(s2, c);
  }

  /** Removing the middle one of three targets keeps the outer two. */
  lemma DropMiddle(t: seq<u32>)
    requires |t| == 3 && t[0] < t[1] < t[2]
    ensures var r := WithoutRef(t, t[1]); |r| == 2 && r[0] == t[0] && r[1] == t[2]
  {
    WithoutRefAt(t, 1);
  }

  /** Three words written at disjoint places each read back as written. */
  lemma ThreeWrites(d: seq<byte>, a: nat, x: u32, b: nat, y: u32, c: nat, z: u32)
    requires a + 4 <= b && b + 4 <= c && c + 4 <= |d|
    ensures var e := WriteU32(WriteU32(WriteU32(d, a, x), b, y), c, z);
      ReadU32(e, a) == x && ReadU32(e, b) == y && ReadU32(e, c) == z
  {
    var d1 := WriteU32(d, a, x);
    var d2 := WriteU32(d1, b, y);
    WriteThenReadU32(d, a, x);
    WriteU32Apart(d1, b, y, a);
    WriteU32Apart(d2, c, z, a);
    WriteThenReadU32(d1, b, y);
    WriteU32Apart(d2, c, z, b);
    WriteThenReadU32(d2, c, z);
  }

  /**
   * "references": four 64-byte objects; the first word of the first object
   * and the second and third words of the second point at the other three.
   * Each reference reads back as the object it was set to, the table holds
   * the three places in order, and removing the middle one keeps the others.
   */
  method References(dat: DatFile) returns (targets: seq<u32>, values: seq<u32>, kept: seq<u32>, reread: seq<u32>)
    requires |dat.data| == 684 && |dat.objects| == 7 && dat.relocTargets == []
    modifies dat
    ensures |targets| == 3 && targets[0] == 684 && targets[1] == 752 && targets[2] == 756
    ensures |values| == 3 && values[0] == 748 && values[1] == 812 && values[2] == 876
    ensures |kept| == 2 && kept[0] == 684 && kept[1] == 756 && dat.relocTargets == kept
    ensures |reread| == 2 && reread[0] == 748 && reread[1] == 876
  {
    var refs := AllocateRefs(dat);
    targets := SetRefs(dat, refs);
    values := ReadRefs(dat, targets);
    var _ := dat.RemoveRef(refs[1] + 4);
    DropMiddle(targets);
    kept := dat.relocTargets;
    reread := ReadRefs(dat, kept);
  }

  /** The four objects of "references", after the 684 bytes of the earlier scenarios. */
  method AllocateRefs(dat: DatFile) returns (refs: seq<u32>)
    requires |dat.data| == 684 && |dat.objects| == 7
    modifies dat
    ensures refs == [684, 748, 812, 876] && |dat.data| == 940 && dat.relocTargets == old(dat.relocTargets)
  {
    var _, ref1 := dat.ObjAlloc(64);
    var _, ref2 := dat.ObjAlloc(64);
    var _, ref3 := dat.ObjAlloc(64);
    var _, ref4 := dat.ObjAlloc(64);
    refs := [ref1, ref2, ref3, ref4];
  }

  /** The three `dat_obj_set_ref` calls of "references". */
  method SetRefs(dat: DatFile, refs: seq<u32>) returns (targets: seq<u32>)
    requires refs == [684, 748, 812, 876] && |dat.data| == 940 && dat.relocTargets == []
    modifies dat
    ensures |targets| == 3 && targets[0] == 684 && targets[1] == 752 && targets[2] == 756
    ensures dat.relocTargets == targets && |dat.data| == 940
    ensures Bytes.ReadU32(dat.data, 684) == 748 && Bytes.ReadU32(dat.data, 752) == 812
    ensures Bytes.ReadU32(dat.data, 756) == 876
  {
    var d := dat.data;
    var _ := dat.SetRef(refs[0], refs[1]);
    var _ := dat.SetRef(refs[1] + 4, refs[2]);
    var _ := dat.SetRef(refs[1] + 8, refs[3]);
    ThreeRefs(684, 752, 756);
    ThreeWrites(d, 684, 748, 752, 812, 756, 876);
    targets := dat.relocTargets;
  }

  /** `dat_obj_read_ref` of each listed place. */
  method ReadRefs(dat: DatFile, at: seq<u32>) returns (values: seq<u32>)
    requires |dat.data| < U32_LIMIT
    requires forall i :: 0 <= i < |at| ==> at[i] % 4 == 0 && at[i] + 4 <= |dat.data|
    ensures |values| == |at|
    ensures forall i :: 0 <= i < |at| ==> values[i] == Bytes.ReadU32(dat.data, at[i])
  {
    values := [];
    for i := 0 to |at|
      invariant |values| == i
      invariant forall j :: 0 <= j < i ==> values[j] == Bytes.ReadU32(dat.data, at[j])
    {
      var _, v := dat.ReadU32(at[i]);
      values := values + [v];
    }
  }

  /** The test program's first three scenarios, in order, on a new file. */
  method RunTests() returns (objs: seq<u32>, roots: seq<SymbolInfo>, targets: seq<u32>, values: seq<u32>)
    ensures objs == [0, 256, 292, 292]
    ensures |roots| == 3 && roots[0] == SymbolInfo(300, 12) && roots[1] == SymbolInfo(428, 0)
    ensures roots[2] == SymbolInfo(556, 6)
    ensures |targets| == 3 && targets[0] == 684 && targets[1] == 752 && targets[2] == 756
    ensures |values| == 3 && values[0] == 748 && values[1] == 812 && values[2] == 876
  {
    var dat := new DatFile();
    objs := AllocateObjects(dat);
    var _, added, _ := AddRemoveRoots(dat);
    roots := added;
    var ts, rs, _, _ := References(dat);
    targets, values := ts, rs;
  }
}
