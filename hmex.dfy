/**
 * The small routines of the `hmex` tool: matching an ELF section name
 * against a symbol, appending arguments to the gcc command line, and
 * packing a relocation's command byte and code offset into one word.
 */
module Hmex {
  import opened Bytes
  import opened Utils

  const QUOTE: byte := 34
  const APOSTROPHE: byte := 39
  const SPACE: byte := 32

  /** The header `.text.` every function section name starts with. */
  const TEXT_PREFIX: seq<byte> := [46, 116, 101, 120, 116, 46]

  /** Byte `i` of a C string: its bytes, then the terminating NUL. */
  function At(s: seq<byte>, i: nat): byte
  {
    if i < |s| then s[i] else 0
  }

  // ----------------------------------------------------- match_section_name

  /**
   * `match_section_name`: the first six bytes of the section name against
   * `.text.`, then byte by byte against the symbol up to and including
   * their NULs.
   */
  method MatchSectionName(symbol: seq<byte>, sectionName: seq<byte>) returns (matched: bool)
    requires IsCString(symbol) && IsCString(sectionName)
    ensures matched <==> sectionName == TEXT_PREFIX + symbol
  {
    var i := 0;
    while i < 6
      invariant i <= 6 && i <= |sectionName| && sectionName[..i] == TEXT_PREFIX[..i]
    {
      if At(sectionName, i) != TEXT_PREFIX[i] {
        assert i < |sectionName| ==> sectionName[i] != (TEXT_PREFIX + symbol)[i];
        return false;
      }
      assert sectionName[..i + 1] == sectionName[..i] + [TEXT_PREFIX[i]];
      i := i + 1;
    }
    while true
      invariant 6 <= i <= |sectionName| && i - 6 <= |symbol|
      invariant sectionName[..i] == TEXT_PREFIX + symbol[..i - 6]
      decreases |sectionName| - i
    {
      var c := At(sectionName, i);
      if c != At(symbol, i - 6) {
        AgreeIfEqual(symbol, sectionName, i);
        return false;
      }
      if c == 0 {
        assert i == |sectionName| && i - 6 == |symbol|;
        assert sectionName == sectionName[..i] && symbol == symbol[..i - 6];
        return true;
      }
      assert sectionName[..i + 1] == sectionName[..i] + [c];
      assert symbol[..i - 5] == symbol[..i - 6] + [c];
      i := i + 1;
    }
  }

  /** Equal names agree on every byte, the NULs included. */
  lemma AgreeIfEqual(symbol: seq<byte>, sectionName: seq<byte>, i: nat)
    requires 6 <= i
    ensures sectionName == TEXT_PREFIX + symbol && i <= |sectionName| ==> At(sectionName, i) == At(symbol, i - 6)
  {
  }

  // ------------------------------------------------------ copy_arg, copy_args

  /** Whether `copy_arg` copies an argument as it is: it already starts with a quote. */
  predicate IsQuoted(arg: seq<byte>)
  {
    arg != [] && (arg[0] == QUOTE || arg[0] == APOSTROPHE)
  }

  /** The text `copy_arg` writes for `arg`, before the space: `arg` in double quotes unless already quoted. */
  function Quoted(arg: seq<byte>): (q: seq<byte>)
  {
    if IsQuoted(arg) then arg else [QUOTE] + arg + [QUOTE]
  }

  /** Quoting gives a quoted text, and the argument is its inside unless it was already quoted. */
  lemma QuotedParts(arg: seq<byte>)
    ensures IsQuoted(Quoted(arg))
    ensures IsQuoted(arg) ==> Quoted(arg) == arg
    ensures !IsQuoted(arg) ==> |Quoted(arg)| == |arg| + 2 && Quoted(arg)[1..|arg| + 1] == arg
  {
    if !IsQuoted(arg) {
      assert ([QUOTE] + arg + [QUOTE])[1..|arg| + 1] == arg;
    }
  }

  /** Quoting twice is quoting once. */
  lemma QuotedIdempotent(arg: seq<byte>)
    ensures Quoted(Quoted(arg)) == Quoted(arg)
  {
    QuotedParts(arg);
  }

  /**
   * `copy_arg`: the argument, quoted unless it already starts with a quote,
   * then a space; the result is the position of the NUL after the space.
   * The code leaves bounds checking to its caller, whose buffer needs room
   * for the quoted argument, the space and the NUL.
   */
  method CopyArg(cmd: array<byte>, cur: nat, arg: seq<byte>) returns (end: nat)
    requires IsCString(arg) && cur + |Quoted(arg)| + 1 < cmd.Length
    modifies cmd
    ensures end == cur + |Quoted(arg)| + 1
    ensures cmd[..] == old(cmd[..cur]) + Quoted(arg) + [SPACE, 0] + old(cmd[end + 1..])
  {
    ghost var orig := cmd[..];
    var at := CopyQuoted(cmd, cur, orig, arg);
    end := Append(cmd, cur, at, orig, Quoted(arg), [SPACE]);
    Written(cmd[..], orig, cur, end, Quoted(arg) + [SPACE]);
  }

  /** The quoting part of `copy_arg`: the argument as it is, or an opening quote, the argument and a closing quote. */
  method CopyQuoted(cmd: array<byte>, cur: nat, ghost orig: seq<byte>, arg: seq<byte>) returns (at: nat)
    requires IsCString(arg) && cur + |Quoted(arg)| + 1 < cmd.Length && cmd[..] == orig
    modifies cmd
    ensures at == cur + |Quoted(arg)| && cmd[..at] == orig[..cur] + Quoted(arg) && cmd[at] == 0
    ensures cmd[at + 1..] == orig[at + 1..]
  {
    if IsQuoted(arg) {
      at := Append(cmd, cur, cur, orig, [], arg);
    } else {
      at := CopyWrapped(cmd, cur, orig, arg);
    }
  }

  /** An opening quote, the argument and a closing quote, for an argument not yet quoted. */
  method CopyWrapped(cmd: array<byte>, cur: nat, ghost orig: seq<byte>, arg: seq<byte>) returns (at: nat)
    requires IsCString(arg) && cur + |arg| + 3 < cmd.Length && cmd[..] == orig
    modifies cmd
    ensures at == cur + |arg| + 2 && cmd[..at] == orig[..cur] + [QUOTE] + arg + [QUOTE] && cmd[at] == 0
    ensures cmd[at + 1..] == orig[at + 1..]
  {
    at := Append(cmd, cur, cur, orig, [], [QUOTE]);
    at := Append(cmd, cur, at, orig, [QUOTE], arg);
    at := Append(cmd, cur, at, orig, [QUOTE] + arg, [QUOTE]);
  }

  /** `copy_args`: the argument as it is, so that the shell splits it, then a space. */
  method CopyArgs(cmd: array<byte>, cur: nat, arg: seq<byte>) returns (end: nat)
    requires IsCString(arg) && cur + |arg| + 1 < cmd.Length
    modifies cmd
    ensures end == cur + |arg| + 1
    ensures cmd[..] == old(cmd[..cur]) + arg + [SPACE, 0] + old(cmd[end + 1..])
  {
    ghost var orig := cmd[..];
    var at := Append(cmd, cur, cur, orig, [], arg);
    end := Append(cmd, cur, at, orig, arg, [SPACE]);
    Written(cmd[..], orig, cur, end, arg + [SPACE]);
  }

  /**
   * One `my_stpcpy` of a command being built from `cur` over the buffer
   * that was `orig`: the text `done` written so far is followed by `str`
   * and a NUL, and the bytes past the NUL are still those of `orig`.
   */
  method Append(cmd: array<byte>, cur: nat, at: nat, ghost orig: seq<byte>, ghost done: seq<byte>, str: seq<byte>)
    returns (end: nat)
    requires IsCString(str) && |orig| == cmd.Length && at == cur + |done| && at + |str| < cmd.Length
    requires cmd[..at] == orig[..cur] + done && cmd[at + 1..] == orig[at + 1..]
    modifies cmd
    ensures end == at + |str| && cmd[..end] == orig[..cur] + done + str && cmd[end] == 0
    ensures cmd[end + 1..] == orig[end + 1..]
  {
    end := StpCpy(cmd, at, str);
    assert cmd[..end] == cmd[..end + 1][..end];
    assert old(cmd[end + 1..]) == old(cmd[at + 1..])[end - at..];
  }

  /** The buffer once the command text is written: the old start, the text and its NUL, the old rest. */
  lemma Written(buf: seq<byte>, orig: seq<byte>, cur: nat, end: nat, text: seq<byte>)
    requires |buf| == |orig| && end < |buf| && cur <= end
    requires buf[..end] == orig[..cur] + text && buf[end] == 0 && buf[end + 1..] == orig[end + 1..]
    ensures buf == orig[..cur] + text + [0] + orig[end + 1..]
  {
    assert buf == buf[..end] + [buf[end]] + buf[end + 1..];
  }

  // ------------------------------------------------------------ MEX packing

  /** `ELF32_R_TYPE`: the low byte of a relocation's `r_info`. */
  function RelType(rInfo: bv32): (t: bv32)
    ensures t < 0x100
  {
    rInfo & 0xFF
  }

  /**
   * `cmd_and_code_offset` of a `MEXReloc`: the relocation type shifted
   * into the high byte, ORed with the code offset `rel_src + rel_offset`
   * (a 32-bit sum, which wraps).
   */
  function CmdAndCodeOffset(relType: bv32, relSrc: bv32, relOffset: bv32): bv32
  {
    (relType << 24) | (relSrc + relOffset)
  }

  /**
   * The high byte of the packed word is the type ORed with the offset's
   * high byte, and its low three bytes are the offset's.
   */
  lemma PackedFields(relType: bv32, relSrc: bv32, relOffset: bv32)
    requires relType < 0x100
    ensures var w, off := CmdAndCodeOffset(relType, relSrc, relOffset), relSrc + relOffset;
      w >> 24 == relType | (off >> 24) && w & 0xFF_FFFF == off & 0xFF_FFFF
  {
  }

  /** Below 2^24 the offset and the type both come back out of the packed word. */
  lemma PackedRoundTrip(relType: bv32, relSrc: bv32, relOffset: bv32)
    requires relType < 0x100 && relSrc + relOffset < 0x100_0000
    ensures var w := CmdAndCodeOffset(relType, relSrc, relOffset);
      w >> 24 == relType && w & 0xFF_FFFF == relSrc + relOffset
  {
  }

  /**
   * The high byte reads back as the type exactly when the offset's high
   * byte sets no bit the type lacks; an offset of 2^24 or more with type
   * 0 shows the type corrupted.
   */
  lemma PackedTypeExactly(relType: bv32, relSrc: bv32, relOffset: bv32)
    requires relType < 0x100
    ensures CmdAndCodeOffset(relType, relSrc, relOffset) >> 24 == relType <==>
      ((relSrc + relOffset) >> 24) | relType == relType
    ensures CmdAndCodeOffset(0, 0x100_0000, 0) >> 24 == 1
  {
  }
}
