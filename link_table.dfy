/**
 * The parser `hmex` runs over a `melee.link` file: one entry per line,
 * `HEXADDR:symbol`, the address a 32-bit hexadecimal number in either
 * case and the symbol the bytes after the colon up to the end of the
 * line. An entry is kept only with a non-empty symbol and an address of
 * at least 0x80000000. The code as written (`ParseLinkTable`, specified
 * by `LinkTableAsWritten`) and the reading it evidently intends
 * (`LinkTable`) are both modelled; the lemmas at the end show where they
 * part.
 */
module LinkTable {
  import opened Wrappers
  import opened Bytes
  import opened Utils

  const CR: byte := 13
  const COLON: byte := 58
  const MIN_ADDRESS: nat := 0x8000_0000

  /** An entry of the link table: a symbol and its address. */
  datatype LinkEntry = LinkEntry(symbol: seq<byte>, address: u32)

  predicate IsHexDigit(c: byte)
  {
    (48 <= c <= 57) || (97 <= c <= 102) || (65 <= c <= 70)
  }

  /** The value of a hexadecimal digit. */
  function HexDigit(c: byte): (d: nat)
    requires IsHexDigit(c)
    ensures d < 16
  {
    if c <= 57 then c - 48 else if c >= 97 then c - 97 + 10 else c - 65 + 10
  }

  predicate AllHex(s: seq<byte>)
  {
    forall k :: 0 <= k < |s| ==> IsHexDigit(s[k])
  }

  /** The number the hexadecimal digits `s` denote, most significant first. */
  function HexValue(s: seq<byte>): nat
    requires AllHex(s)
  {
    if s == [] then 0 else HexValue(s[..|s| - 1]) * 16 + HexDigit(s[|s| - 1])
  }

  /** `addr <<= 4; addr += digit` on a `uint32_t`: each step truncated to 32 bits. */
  function Shift4(addr: u32, d: nat): u32
    requires d < 16
  {
    Trunc32(Trunc32(addr * 16) + d)
  }

  // -------------------------------------------------------- as written

  /** Where the address loop leaves `i`, the address, and whether it met a byte it rejects. */
  datatype AddrScan = AddrScan(next: nat, addr: u32, err: bool)

  /**
   * The address loop from `lt[i]` with `addr` so far: digits shift in, a
   * colon is consumed and ends the address, any other byte ends it
   * unconsumed and marks the line malformed.
   */
  function ScanAddress(lt: seq<byte>, i: nat, addr: u32): (a: AddrScan)
    requires i <= |lt|
    ensures i <= a.next <= |lt|
    decreases |lt| - i
  {
    if i == |lt| then AddrScan(i, addr, false)
    else if IsHexDigit(lt[i]) then ScanAddress(lt, i + 1, Shift4(addr, HexDigit(lt[i])))
    else if lt[i] == COLON then AddrScan(i + 1, addr, false)
    else AddrScan(i, addr, true)
  }

  /** Where the symbol loop stops: the first carriage return or newline from `i` on, or the end. */
  function SymbolEnd(lt: seq<byte>, i: nat): (end: nat)
    requires i <= |lt|
    ensures i <= end <= |lt| && (end < |lt| ==> lt[end] == CR || lt[end] == NL)
    ensures forall k :: i <= k < end ==> lt[k] != CR && lt[k] != NL
    decreases |lt| - i
  {
    if i == |lt| || lt[i] == CR || lt[i] == NL then i else SymbolEnd(lt, i + 1)
  }

  /** Where the symbol loop leaves `i`: past a carriage return, on a newline. */
  function AfterSymbol(lt: seq<byte>, end: nat): (i: nat)
    requires end <= |lt|
    ensures i <= |lt|
  {
    if end < |lt| && lt[end] == CR then end + 1 else end
  }

  /**
   * What the parser has produced: the entries stored, the bytes written to
   * the symbol buffer, the line numbers reported malformed, and the error
   * flag.
   */
  datatype LinkState = LinkState(entries: seq<LinkEntry>, symbols: seq<byte>, warnings: seq<nat>, err: bool)

  /**
   * One turn of the line loop from `lt[i]`, on line number `line`: the
   * address, then the symbol, NUL-terminated in the buffer whatever
   * happens, then the entry if no error has been flagged, which, once
   * flagged, stays so. The result is where the next turn starts and the
   * new state.
   */
  function ParseTurn(lt: seq<byte>, i: nat, line: nat, st: LinkState): (r: (nat, LinkState))
    requires i < |lt|
    ensures i < r.0
  {
    var a := ScanAddress(lt, i, 0);
    var end := SymbolEnd(lt, a.next);
    var symbol := lt[a.next..end];
    var err := st.err || a.err || |symbol| == 0 || a.addr < MIN_ADDRESS;
    (AfterSymbol(lt, end) + 1,
     LinkState(
       if err then st.entries else st.entries + [LinkEntry(symbol, a.addr)],
       st.symbols + symbol + [0],
       if err then st.warnings + [line] else st.warnings,
       err))
  }

  /** The line loop from `lt[i]` on, on line number `line`. */
  function LinkFrom(lt: seq<byte>, i: nat, line: nat, st: LinkState): LinkState
    decreases |lt| - i
  {
    if i >= |lt| then st
    else
      var r := ParseTurn(lt, i, line, st);
      LinkFrom(lt, r.0, line + 1, r.1)
  }

  /** The link table the code builds from the file `lt`. */
  function LinkTableAsWritten(lt: seq<byte>): LinkState
  {
    LinkFrom(lt, 0, 1, LinkState([], [], [], false))
  }

  /** The line-parsing loop of `hmex`'s main, the link table growing as it goes. */
  method ParseLinkTable(lt: seq<byte>) returns (entries: seq<LinkEntry>, symbols: seq<byte>, warnings: seq<nat>)
    ensures var r := LinkTableAsWritten(lt);
      entries == r.entries && symbols == r.symbols && warnings == r.warnings
  {
    var i := 0;
    var line := 1;
    var err := false;
    entries, symbols, warnings := [], [], [];
    while i < |lt|
      invariant LinkFrom(lt, i, line, LinkState(entries, symbols, warnings, err)) == LinkTableAsWritten(lt)
      decreases |lt| - i
    {
      i, entries, symbols, warnings, err := ParseEntry(lt, i, line, entries, symbols, warnings, err);
      line := line + 1;
    }
  }

  /** One turn of the line loop: where the next line starts, and the table, buffer, warnings and flag after this one. */
  method ParseEntry(lt: seq<byte>, i: nat, line: nat, entries: seq<LinkEntry>, symbols: seq<byte>, warnings: seq<nat>, err: bool)
    returns (next: nat, entries': seq<LinkEntry>, symbols': seq<byte>, warnings': seq<nat>, err': bool)
    requires i < |lt|
    ensures (next, LinkState(entries', symbols', warnings', err')) ==
      ParseTurn(lt, i, line, LinkState(entries, symbols, warnings, err))
  {
    var a := ScanAddressLoop(lt, i);
    err' := err || a.err;
    var symbolStart := a.next;
    next, symbols' := ScanSymbolLoop(lt, symbolStart, symbols);
    symbols' := symbols' + [0];
    var symbol := lt[symbolStart..SymbolEnd(lt, symbolStart)];
    if |symbol| == 0 {
      err' := true;
    }
    if a.addr < MIN_ADDRESS {
      err' := true;
    }
    entries', warnings' := entries, warnings;
    if err' {
      warnings' := warnings + [line];
    } else {
      entries' := entries + [LinkEntry(symbol, a.addr)];
    }
    next := next + 1;
  }

  /** The address loop. */
  method ScanAddressLoop(lt: seq<byte>, start: nat) returns (a: AddrScan)
    requires start <= |lt|
    ensures a == ScanAddress(lt, start, 0)
  {
    var i := start;
    var addr: u32 := 0;
    while i < |lt|
      invariant start <= i <= |lt| && ScanAddress(lt, i, addr) == ScanAddress(lt, start, 0)
      decreases |lt| - i
    {
      var c := lt[i];
      if IsHexDigit(c) {
        addr := Shift4(addr, HexDigit(c));
      } else if c == COLON {
        return AddrScan(i + 1, addr, false);
      } else {
        return AddrScan(i, addr, true);
      }
      i := i + 1;
    }
    a := AddrScan(i, addr, false);
  }

  /** The symbol loop: each byte of the symbol written to the buffer. */
  method ScanSymbolLoop(lt: seq<byte>, start: nat, symbols: seq<byte>) returns (next: nat, symbols': seq<byte>)
    requires start <= |lt|
    ensures next == AfterSymbol(lt, SymbolEnd(lt, start))
    ensures symbols' == symbols + lt[start..SymbolEnd(lt, start)]
  {
    var i := start;
    symbols' := symbols;
    while i < |lt|
      invariant start <= i <= |lt| && SymbolEnd(lt, i) == SymbolEnd(lt, start)
      invariant symbols' == symbols + lt[start..i]
      decreases |lt| - i
    {
      var c := lt[i];
      if c == CR {
        return i + 1, symbols';
      }
      if c == NL {
        return i, symbols';
      }
      assert lt[start..i + 1] == lt[start..i] + [c];
      symbols' := symbols' + [c];
      i := i + 1;
    }
    next := i;
  }

  // -------------------------------------------------- the address as a number

  /** One digit shifted into a truncated value is the digit shifted into the value, truncated. */
  lemma ShiftMod(v: nat, d: nat)
    requires d < 16
    ensures Shift4(v % U32_LIMIT, d) == (v * 16 + d) % U32_LIMIT
  {
    var a := v % U32_LIMIT;
    var q := v / U32_LIMIT;
    assert v * 16 + d == (q * 16) * U32_LIMIT + (a * 16 + d);
    ModShift(q * 16, a * 16 + d);
    var p := (a * 16) / U32_LIMIT;
    assert a * 16 + d == p * U32_LIMIT + ((a * 16) % U32_LIMIT + d);
    ModShift(p, (a * 16) % U32_LIMIT + d);
  }

  lemma ModShift(k: nat, x: nat)
    ensures (k * U32_LIMIT + x) % U32_LIMIT == x % U32_LIMIT
  {
  }

  /** The address loop over the digits `lt[i..j]` leaves the value they denote, truncated to 32 bits. */
  lemma {:induction false} ScanPrefix(lt: seq<byte>, i: nat, j: nat)
    requires i <= j <= |lt| && AllHex(lt[i..j])
    ensures ScanAddress(lt, i, 0) == ScanAddress(lt, j, HexValue(lt[i..j]) % U32_LIMIT)
    decreases j - i
  {
    if i < j {
      HexStep(lt, i, j);
      ScanPrefix(lt, i, j - 1);
      var w := HexValue(lt[i..j - 1]) % U32_LIMIT;
      assert ScanAddress(lt, j - 1, w) == ScanAddress(lt, j, Shift4(w, HexDigit(lt[j - 1])));
    } else {
      assert lt[i..j] == [];
    }
  }

  /** The last digit shifted into the truncated value of the others gives the truncated value of all. */
  lemma HexStep(lt: seq<byte>, i: nat, j: nat)
    requires i < j <= |lt| && AllHex(lt[i..j])
    ensures AllHex(lt[i..j - 1]) && IsHexDigit(lt[j - 1])
    ensures Shift4(HexValue(lt[i..j - 1]) % U32_LIMIT, HexDigit(lt[j - 1])) == HexValue(lt[i..j]) % U32_LIMIT
  {
    HexPrefix(lt[i..j], j - 1 - i);
    assert lt[i..j][..j - i - 1] == lt[i..j - 1];
    assert lt[j - 1] == lt[i..j][j - i - 1];
    ShiftMod(HexValue(lt[i..j - 1]), HexDigit(lt[j - 1]));
  }

  lemma HexPrefix(s: seq<byte>, n: nat)
    requires AllHex(s) && n <= |s|
    ensures AllHex(s[..n])
  {
    assert forall k :: 0 <= k < n ==> s[..n][k] == s[k];
  }

  /**
   * On a line that starts with the hexadecimal digits `lt[i..k]`, the
   * address loop computes their value modulo 2^32; it consumes a colon
   * after them and flags any other byte there.
   */
  lemma ScanIsHex(lt: seq<byte>, i: nat, k: nat)
    requires i <= k <= |lt| && AllHex(lt[i..k]) && (k < |lt| ==> !IsHexDigit(lt[k]))
    ensures var a := ScanAddress(lt, i, 0);
      a.addr == HexValue(lt[i..k]) % U32_LIMIT &&
      a.err == (k < |lt| && lt[k] != COLON) &&
      a.next == (if k < |lt| && lt[k] == COLON then k + 1 else k)
  {
    ScanPrefix(lt, i, k);
  }

  // ----------------------------------------------- what the code as written stores

  /** Every entry is well formed: a non-empty symbol free of line breaks, at an address of at least 0x80000000. */
  predicate ValidEntries(es: seq<LinkEntry>)
  {
    forall e :: e in es ==>
      e.address >= MIN_ADDRESS && e.symbol != [] && CR !in e.symbol && NL !in e.symbol
  }

  /** The code as written stores only well-formed entries. */
  lemma {:induction false} AsWrittenEntriesValid(lt: seq<byte>, i: nat, line: nat, st: LinkState)
    requires ValidEntries(st.entries)
    ensures ValidEntries(LinkFrom(lt, i, line, st).entries)
    decreases |lt| - i
  {
    if i < |lt| {
      var a := ScanAddress(lt, i, 0);
      var end := SymbolEnd(lt, a.next);
      var symbol := lt[a.next..end];
      assert CR !in symbol && NL !in symbol by {
        assert forall k :: 0 <= k < |symbol| ==> symbol[k] == lt[a.next + k];
      }
      var r := ParseTurn(lt, i, line, st);
      assert ValidEntries(r.1.entries);
      AsWrittenEntriesValid(lt, r.0, line + 1, r.1);
    }
  }

  /** Once an error is flagged no entry is stored, and every later line is reported. */
  lemma {:induction false} ErrorSticks(lt: seq<byte>, i: nat, line: nat, st: LinkState)
    requires st.err
    ensures LinkFrom(lt, i, line, st).entries == st.entries
    ensures LinkFrom(lt, i, line, st).err
    decreases |lt| - i
  {
    if i < |lt| {
      var r := ParseTurn(lt, i, line, st);
      ErrorSticks(lt, r.0, line + 1, r.1);
    }
  }

  // ----------------------------------------------------------- corrected

  /** The length of the run of hexadecimal digits that starts `s`. */
  function HexRun(s: seq<byte>): (k: nat)
    ensures k <= |s| && AllHex(s[..k]) && (k < |s| ==> !IsHexDigit(s[k]))
  {
    if s == [] || !IsHexDigit(s[0]) then 0
    else
      var k := 1 + HexRun(s[1..]);
      assert forall j :: 1 <= j < k ==> s[..k][j] == s[1..][..k - 1][j - 1];
      k
  }

  /** The index of the first carriage return of `s`, or its length. */
  function FirstCR(s: seq<byte>): (k: nat)
    ensures k <= |s| && (k < |s| ==> s[k] == CR) && CR !in s[..k]
  {
    if s == [] || s[0] == CR then 0
    else
      var k := 1 + FirstCR(s[1..]);
      assert s[..k] == [s[0]] + s[1..][..k - 1];
      k
  }

  /**
   * A line of the file, without its newline, read as the parser means to:
   * hexadecimal digits, a colon, then the symbol up to a carriage return
   * or the end of the line. A line with no colon after its digits, an
   * empty symbol or an address below 0x80000000 gives no entry.
   */
  function ParseLine(line: seq<byte>): Option<LinkEntry>
  {
    var k := HexRun(line);
    if k == |line| || line[k] != COLON then None
    else
      var rest := line[k + 1..];
      var symbol := rest[..FirstCR(rest)];
      var addr := HexValue(line[..k]) % U32_LIMIT;
      if symbol == [] || addr < MIN_ADDRESS then None else Some(LinkEntry(symbol, addr))
  }

  /** The entries of the lines `ls`, each line on its own. */
  function EntriesOf(ls: seq<seq<byte>>): (es: seq<LinkEntry>)
    ensures |es| <= |ls|
  {
    if ls == [] then []
    else EntryOf(ls[0]) + EntriesOf(ls[1..])
  }

  /** The entry of one line, if it has one. */
  function EntryOf(line: seq<byte>): (es: seq<LinkEntry>)
    ensures |es| <= 1
  {
    match ParseLine(line)
    case Some(e) => [e]
    case None => []
  }

  /** The link table the parser evidently means to build from the file `lt`. */
  function LinkTable(lt: seq<byte>): seq<LinkEntry>
  {
    EntriesOf(Lines(lt))
  }

  /** The symbol buffer the stored entries need: each symbol followed by its NUL. */
  function SymbolBuffer(es: seq<LinkEntry>): seq<byte>
  {
    if es == [] then [] else es[0].symbol + [0] + SymbolBuffer(es[1..])
  }

  /** The entries of two runs of lines are those of each. */
  lemma {:induction false} EntriesOfAppend(a: seq<seq<byte>>, b: seq<seq<byte>>)
    ensures EntriesOf(a + b) == EntriesOf(a) + EntriesOf(b)
  {
    if a == [] {
      assert a + b == b;
    } else {
      var ab := a + b;
      assert ab[0] == a[0] && ab[1..] == a[1..] + b;
      EntriesOfAppend(a[1..], b);
      calc {
        EntriesOf(ab);
        EntryOf(a[0]) + EntriesOf(a[1..] + b);
        EntryOf(a[0]) + (EntriesOf(a[1..]) + EntriesOf(b));
        (EntryOf(a[0]) + EntriesOf(a[1..])) + EntriesOf(b);
      }
    }
  }

  /** A malformed line is skipped without touching the entries of the lines around it. */
  lemma MalformedLineSkipped(before: seq<seq<byte>>, line: seq<byte>, after: seq<seq<byte>>)
    requires ParseLine(line) == None
    ensures EntriesOf(before + [line] + after) == EntriesOf(before) + EntriesOf(after)
  {
    assert [line][0] == line && [line][1..] == [];
    assert EntriesOf([line]) == EntryOf(line) + EntriesOf([]);
    EntriesOfAppend(before, [line]);
    EntriesOfAppend(before + [line], after);
    assert EntriesOf(before + [line]) == EntriesOf(before);
  }

  /** A parsed line gives a well-formed entry, its symbol taken from the line. */
  lemma ParseLineValid(line: seq<byte>)
    requires NL !in line
    ensures ParseLine(line).Some? ==> ValidEntries([ParseLine(line).value]) && |ParseLine(line).value.symbol| < |line|
  {
    var k := HexRun(line);
    if k < |line| && line[k] == COLON {
      var rest := line[k + 1..];
      var symbol := rest[..FirstCR(rest)];
      assert forall j :: 0 <= j < |symbol| ==> symbol[j] == line[k + 1 + j];
    }
  }

  /** Lines free of newlines give well-formed entries, whose symbols and NULs fit in the lines' bytes. */
  lemma {:induction false} EntriesOfValid(ls: seq<seq<byte>>)
    requires forall i :: 0 <= i < |ls| ==> NL !in ls[i]
    ensures ValidEntries(EntriesOf(ls))
    ensures |SymbolBuffer(EntriesOf(ls))| <= TotalLength(ls)
  {
    if ls != [] {
      ParseLineValid(ls[0]);
      EntriesOfValid(ls[1..]);
      match ParseLine(ls[0])
      case Some(e) =>
        var es := [e] + EntriesOf(ls[1..]);
        assert es[1..] == EntriesOf(ls[1..]);
        assert SymbolBuffer(es) == e.symbol + [0] + SymbolBuffer(EntriesOf(ls[1..]));
      case None =>
        assert EntriesOf(ls) == EntriesOf(ls[1..]);
    }
  }

  /** The number of bytes of the lines `ls`, newlines not counted. */
  function TotalLength(ls: seq<seq<byte>>): nat
  {
    if ls == [] then 0 else |ls[0]| + TotalLength(ls[1..])
  }

  /** Joining lines adds a newline between each two. */
  lemma {:induction false} JoinSize(ls: seq<seq<byte>>)
    ensures TotalLength(ls) <= |Join(ls)|
    ensures ls != [] ==> |Join(ls)| == TotalLength(ls) + |ls| - 1
  {
    if |ls| > 1 {
      JoinSize(ls[1..]);
    }
  }

  /** The corrected table holds only well-formed entries. */
  lemma LinkTableValid(lt: seq<byte>)
    ensures ValidEntries(LinkTable(lt))
  {
    NoNewlineInLines(lt);
    EntriesOfValid(Lines(lt));
  }

  lemma NoNewlineInLines(lt: seq<byte>)
    ensures forall i :: 0 <= i < |Lines(lt)| ==> NL !in Lines(lt)[i]
  {
    LinesHaveNoNewline(lt, 0);
    forall i | 0 <= i < |Lines(lt)|
      ensures NL !in Lines(lt)[i]
    {
      assert forall j :: 0 <= j < |Lines(lt)[i]| ==> Lines(lt)[i][j] != NL;
    }
  }

  /**
   * The corrected table fits what the code allocates: one entry per
   * newline and one more, and a symbol buffer as long as the file.
   */
  lemma LinkTableFits(lt: seq<byte>)
    ensures |LinkTable(lt)| <= CountFrom(lt, NL, 0) + 1
    ensures |SymbolBuffer(LinkTable(lt))| <= |lt|
  {
    LinesCount(lt);
    NoNewlineInLines(lt);
    EntriesOfValid(Lines(lt));
    JoinSize(Lines(lt));
    JoinLines(lt);
  }

  // ------------------------------------------- where the two readings agree

  /** Every carriage return of `lt` is the first half of a `\r\n`. */
  predicate CarriageReturnsEndLines(lt: seq<byte>)
  {
    forall j :: 0 <= j < |lt| ==> EndsLineIfCR(lt, j)
  }

  /** The byte at `j`, if a carriage return, is followed by a newline. */
  predicate EndsLineIfCR(lt: seq<byte>, j: nat)
    requires j < |lt|
  {
    lt[j] == CR ==> j + 1 < |lt| && lt[j + 1] == NL
  }

  /** Every line of `ls` holds an entry. */
  predicate AllWellFormed(ls: seq<seq<byte>>)
  {
    forall i :: 0 <= i < |ls| ==> ParseLine(ls[i]).Some?
  }

  /** The symbol loop from `s` stops at `e` when no line break lies before it and one, or the end, lies at it. */
  lemma {:induction false} SymbolEndIs(lt: seq<byte>, s: nat, e: nat)
    requires s <= e <= |lt| && (e < |lt| ==> lt[e] == CR || lt[e] == NL)
    requires forall j :: s <= j < e ==> lt[j] != CR && lt[j] != NL
    ensures SymbolEnd(lt, s) == e
    decreases e - s
  {
    if s < e {
      SymbolEndIs(lt, s + 1, e);
    }
  }

  /**
   * The parts of a line holding entry `e`: its digits up to the colon at
   * `h`, then its symbol of length `c`, up to the line's first carriage
   * return or its end.
   */
  lemma LineParts(l: seq<byte>, e: LinkEntry) returns (h: nat, c: nat)
    requires ParseLine(l) == Some(e)
    ensures h + 1 + c <= |l| && AllHex(l[..h]) && l[h] == COLON && e.address == HexValue(l[..h]) % U32_LIMIT
    ensures e.symbol == l[h + 1..h + 1 + c] && CR !in e.symbol && (h + 1 + c < |l| ==> l[h + 1 + c] == CR)
    ensures e.symbol != [] && e.address >= MIN_ADDRESS
  {
    h := HexRun(l);
    var rest := l[h + 1..];
    c := FirstCR(rest);
    SliceOfSlice(l, h + 1, |l|, 0, c);
  }

  /**
   * Where those parts lie in the file, for the line from `i`: its digits
   * from `i` up to the colon at `s - 1`, then its symbol from `s` up to
   * `end`.
   */
  lemma LineInFile(lt: seq<byte>, i: nat, e: LinkEntry, h: nat, c: nat) returns (s: nat, end: nat)
    requires i < |lt| && var l := lt[i..NextNewline(lt, i)];
      h + 1 + c <= |l| && AllHex(l[..h]) && l[h] == COLON && e.address == HexValue(l[..h]) % U32_LIMIT &&
      e.symbol == l[h + 1..h + 1 + c] && CR !in e.symbol && (h + 1 + c < |l| ==> l[h + 1 + c] == CR)
    ensures s == i + h + 1 && end == s + c && end <= NextNewline(lt, i)
    ensures AllHex(lt[i..s - 1]) && lt[s - 1] == COLON && e.address == HexValue(lt[i..s - 1]) % U32_LIMIT
    ensures e.symbol == lt[s..end] && CR !in lt[s..end] && (end < NextNewline(lt, i) ==> lt[end] == CR)
  {
    var k := NextNewline(lt, i);
    s, end := i + h + 1, i + h + 1 + c;
    SliceOfSlice(lt, i, k, 0, h);
    SliceOfSlice(lt, i, k, h + 1, h + 1 + c);
  }

  /** A slice of a slice is a slice. */
  lemma SliceOfSlice<T>(a: seq<T>, i: nat, k: nat, x: nat, y: nat)
    requires i <= k <= |a| && x <= y <= k - i
    ensures a[i..k][x..y] == a[i + x..i + y]
  {
    var r := a[i..k][x..y];
    assert forall j :: 0 <= j < |r| ==> r[j] == a[i + x + j];
  }

  /** The address loop over the digits `lt[i..s - 1]` and the colon after them. */
  lemma AddressLoopOnLine(lt: seq<byte>, i: nat, s: nat, addr: u32)
    requires i < s <= |lt| && AllHex(lt[i..s - 1]) && lt[s - 1] == COLON
    requires addr == HexValue(lt[i..s - 1]) % U32_LIMIT
    ensures ScanAddress(lt, i, 0) == AddrScan(s, addr, false)
  {
    ScanIsHex(lt, i, s - 1);
  }

  /**
   * The symbol loop from `s` on the line from `i` stops at `end`, the
   * line's first carriage return or its end, and leaves the index on
   * the line's newline.
   */
  lemma SymbolLoopOnLine(lt: seq<byte>, i: nat, s: nat, end: nat)
    requires i <= |lt| && i <= s <= end <= NextNewline(lt, i) && CarriageReturnsEndLines(lt)
    requires CR !in lt[s..end] && (end < NextNewline(lt, i) ==> lt[end] == CR)
    ensures SymbolEnd(lt, s) == end && AfterSymbol(lt, end) == NextNewline(lt, i)
  {
    var k := NextNewline(lt, i);
    assert forall j :: s <= j < end ==> lt[j] == lt[s..end][j - s];
    SymbolEndIs(lt, s, end);
    if end < k {
      assert EndsLineIfCR(lt, end);
      assert end + 1 == k;
    }
  }

  /** A turn of the loop as written on a line whose address and symbol loops stop where given. */
  lemma StepOfParts(lt: seq<byte>, i: nat, line: nat, st: LinkState, k: nat, s: nat, end: nat, e: LinkEntry)
    requires i < |lt|
    requires s <= end <= |lt|
    requires !st.err
    requires ScanAddress(lt, i, 0) == AddrScan(s, e.address, false)
    requires SymbolEnd(lt, s) == end
    requires lt[s..end] == e.symbol
    requires AfterSymbol(lt, end) == k
    requires e.symbol != []
    requires e.address >= MIN_ADDRESS
    ensures var r := ParseTurn(lt, i, line, st);
      r.0 == k + 1 && r.1.entries == st.entries + [e] && r.1.symbols == st.symbols + e.symbol + [0] &&
      r.1.warnings == st.warnings && !r.1.err
  {
  }

  /**
   * On a line holding an entry, whose carriage return, if any, ends it,
   * one turn of the loop as written stores the line's entry and moves to
   * the next line.
   */
  lemma LineAgrees(lt: seq<byte>, i: nat, line: nat, st: LinkState) returns (e: LinkEntry)
    requires i < |lt| && CarriageReturnsEndLines(lt) && !st.err
    requires ParseLine(lt[i..NextNewline(lt, i)]).Some?
    ensures e == ParseLine(lt[i..NextNewline(lt, i)]).value
    ensures var r := ParseTurn(lt, i, line, st);
      r.0 == NextNewline(lt, i) + 1 && r.1.entries == st.entries + [e] &&
      r.1.symbols == st.symbols + e.symbol + [0] && r.1.warnings == st.warnings && !r.1.err
  {
    e := ParseLine(lt[i..NextNewline(lt, i)]).value;
    var h, c := LineParts(lt[i..NextNewline(lt, i)], e);
    var s, end := LineInFile(lt, i, e, h, c);
    AddressLoopOnLine(lt, i, s, e.address);
    SymbolLoopOnLine(lt, i, s, end);
    StepOfParts(lt, i, line, st, NextNewline(lt, i), s, end, e);
  }

  /** From a line start on, on such a file, the code as written stores exactly the entries of the lines. */
  lemma {:induction false} AgreeFrom(lt: seq<byte>, i: nat, line: nat, st: LinkState)
    requires CarriageReturnsEndLines(lt) && !st.err && AllWellFormed(LinesFrom(lt, i))
    ensures var r, es := LinkFrom(lt, i, line, st), EntriesOf(LinesFrom(lt, i));
      r.entries == st.entries + es && r.symbols == st.symbols + SymbolBuffer(es) && r.warnings == st.warnings
    decreases |lt| - i
  {
    if i < |lt| {
      var k := NextNewline(lt, i);
      FirstLine(lt, i);
      var e := LineAgrees(lt, i, line, st);
      var st' := LinkState(st.entries + [e], st.symbols + e.symbol + [0], st.warnings, false);
      LinkFromTurn(lt, i, line, st, k + 1, st');
      AgreeFrom(lt, k + 1, line + 1, st');
      AppendEntry(st, e, EntriesOf(LinesFrom(lt, k + 1)), LinkFrom(lt, k + 1, line + 1, st'));
    } else {
      assert LinesFrom(lt, i) == [];
    }
  }

  /** The first of the lines from `i` on holds an entry, and so do the rest, when all do. */
  lemma FirstLine(lt: seq<byte>, i: nat)
    requires i < |lt| && AllWellFormed(LinesFrom(lt, i))
    ensures var k := NextNewline(lt, i);
      ParseLine(lt[i..k]).Some? && AllWellFormed(LinesFrom(lt, k + 1)) &&
      EntriesOf(LinesFrom(lt, i)) == [ParseLine(lt[i..k]).value] + EntriesOf(LinesFrom(lt, k + 1))
  {
    var k := NextNewline(lt, i);
    LinesFromStep(lt, i);
    var ls := LinesFrom(lt, i);
    assert ls[0] == lt[i..k] && ls[1..] == LinesFrom(lt, k + 1);
    assert AllWellFormed(ls[1..]);
  }

  /** Storing entry `e` and then the entries `rest` stores the entries `[e] + rest`. */
  lemma AppendEntry(st: LinkState, e: LinkEntry, rest: seq<LinkEntry>, r: LinkState)
    requires r.entries == st.entries + [e] + rest
    requires r.symbols == st.symbols + e.symbol + [0] + SymbolBuffer(rest)
    ensures r.entries == st.entries + ([e] + rest)
    ensures r.symbols == st.symbols + SymbolBuffer([e] + rest)
  {
    assert ([e] + rest)[1..] == rest;
    Regroup(st.entries, [e], rest);
    Regroup(st.symbols, e.symbol + [0], SymbolBuffer(rest));
  }

  /** The line loop from `lt[i]` is the loop from where its first turn leaves it, in the state that turn leaves. */
  lemma LinkFromTurn(lt: seq<byte>, i: nat, line: nat, st: LinkState, next: nat, st': LinkState)
    requires i < |lt|
    requires var r := ParseTurn(lt, i, line, st);
      r.0 == next && r.1.entries == st'.entries && r.1.symbols == st'.symbols &&
      r.1.warnings == st'.warnings && r.1.err == st'.err
    ensures LinkFrom(lt, i, line, st) == LinkFrom(lt, next, line + 1, st')
  {
    var r := ParseTurn(lt, i, line, st);
    assert r == (next, st');
  }

  lemma Regroup<T>(a: seq<T>, b: seq<T>, c: seq<T>)
    ensures a + b + c == a + (b + c)
  {
  }

  /**
   * On a file whose every line holds an entry and whose carriage returns
   * all end lines, the code as written builds the corrected table and
   * symbol buffer and reports no line.
   */
  lemma AgreesOnWellFormedFiles(lt: seq<byte>)
    requires CarriageReturnsEndLines(lt) && AllWellFormed(Lines(lt))
    ensures LinkTableAsWritten(lt).entries == LinkTable(lt)
    ensures LinkTableAsWritten(lt).symbols == SymbolBuffer(LinkTable(lt))
    ensures LinkTableAsWritten(lt).warnings == []
  {
    AgreeFrom(lt, 0, 1, LinkState([], [], [], false));
  }

  // ------------------------------------------- where the code as written parts

  /** The address `80000000`, the lowest one kept. */
  const LOWEST: seq<byte> := [56, 48, 48, 48, 48, 48, 48, 48]

  /** A digit appended shifts the value one place. */
  lemma HexSnoc(s: seq<byte>, c: byte)
    requires AllHex(s) && IsHexDigit(c)
    ensures AllHex(s + [c]) && HexValue(s + [c]) == HexValue(s) * 16 + HexDigit(c)
  {
    assert (s + [c])[..|s|] == s;
  }

  lemma LowestValue()
    ensures AllHex(LOWEST) && HexValue(LOWEST) == MIN_ADDRESS
  {
    var s: seq<byte> := [56];
    assert s[..0] == [];
    assert HexValue(s) == 8;
    HexSnoc(s, 48);
    s := s + [48];
    HexSnoc(s, 48);
    s := s + [48];
    HexSnoc(s, 48);
    s := s + [48];
    HexSnoc(s, 48);
    s := s + [48];
    HexSnoc(s, 48);
    s := s + [48];
    HexSnoc(s, 48);
    s := s + [48];
    HexSnoc(s, 48);
    s := s + [48];
    assert s == LOWEST;
  }

  /** The digit run is the `k` digits followed by a byte that is not one. */
  lemma {:induction false} HexRunIs(s: seq<byte>, k: nat)
    requires k <= |s| && (forall j :: 0 <= j < k ==> IsHexDigit(s[j])) && (k < |s| ==> !IsHexDigit(s[k]))
    ensures HexRun(s) == k
  {
    if k > 0 {
      HexRunIs(s[1..], k - 1);
    }
  }

  /** A byte that does not occur is counted zero times. */
  lemma {:induction false} CountAbsent(s: seq<byte>, c: byte, from: nat)
    requires forall j :: from <= j < |s| ==> s[j] != c
    ensures CountFrom(s, c, from) == 0
    decreases |s| - from
  {
    if from < |s| {
      CountAbsent(s, c, from + 1);
    }
  }

  /** A malformed line `X`, then a well-formed entry for `a`. */
  const STICKY_FILE: seq<byte> := [88, 10, 56, 48, 48, 48, 48, 48, 48, 48, 58, 97]

  /**
   * The error flag is never reset: after the malformed line `X`, the
   * well-formed entry on the next line is dropped too, where each line
   * on its own keeps it.
   */
  lemma StickyErrorDropsEntries()
    ensures LinkTableAsWritten(STICKY_FILE).entries == []
    ensures LinkTable(STICKY_FILE) == [LinkEntry([97], MIN_ADDRESS)]
  {
    var lt := STICKY_FILE;
    assert lt[2..10] == LOWEST;
    StickyAsWritten(lt);
    StickyCorrected(lt);
  }

  lemma StickyAsWritten(lt: seq<byte>)
    requires |lt| > 2 && lt[0] == 88 && lt[1] == NL
    ensures LinkTableAsWritten(lt).entries == []
  {
    assert SymbolEnd(lt, 1) == 1;
    assert SymbolEnd(lt, 0) == 1;
    assert lt[0..1] == [88] && AfterSymbol(lt, 1) == 1;
    assert ScanAddress(lt, 0, 0) == AddrScan(0, 0, true);
    var init := LinkState([], [], [], false);
    var r := ParseTurn(lt, 0, 1, init);
    assert r.0 == 2;
    assert r.1.entries == [];
    assert r.1.symbols == [88, 0];
    assert r.1.warnings == [1];
    assert r.1.err;
    assert LinkTableAsWritten(lt) == LinkFrom(lt, 2, 2, LinkState([], [88, 0], [1], true));
    ErrorSticks(lt, 2, 2, LinkState([], [88, 0], [1], true));
  }

  lemma StickyCorrected(lt: seq<byte>)
    requires |lt| == 12 && lt[0] == 88 && lt[1] == NL && lt[2..10] == LOWEST && lt[10] == COLON && lt[11] == 97
    ensures LinkTable(lt) == [LinkEntry([97], MIN_ADDRESS)]
  {
    var line := lt[2..12];
    assert NextNewline(lt, 1) == 1;
    assert NextNewline(lt, 0) == 1;
    LowestValue();
    assert forall j :: 2 <= j < 10 ==> lt[j] == LOWEST[j - 2];
    assert NextNewline(lt, 2) == 12;
    StickyLine(line);
    LinesFromStep(lt, 0);
    LinesFromStep(lt, 2);
    assert lt[0..1] == [88];
    assert Lines(lt) == [[88], line];
    assert ParseLine([88]) == None;
    assert [[88], line][1..] == [line];
    assert LinkTable(lt) == EntryOf([88]) + EntriesOf([line]);
  }

  lemma StickyLine(line: seq<byte>)
    requires |line| == 10 && line[..8] == LOWEST && line[8] == COLON && line[9] == 97
    ensures ParseLine(line) == Some(LinkEntry([97], MIN_ADDRESS))
  {
    LowestValue();
    assert forall j :: 0 <= j < 8 ==> line[j] == LOWEST[j];
    HexRunIs(line, 8);
    assert line[9..] == [97];
    assert FirstCR([97]) == 1 && [97][..1] == [97];
  }

  /** Two entries separated by `\r\r`, with no newline in the file. */
  const CR_FILE: seq<byte> :=
    [56, 48, 48, 48, 48, 48, 48, 48, 58, 97, 13, 13, 56, 48, 48, 48, 48, 48, 48, 48, 58, 98]

  /**
   * A carriage return ends a symbol and the byte after it is skipped, so
   * `\r\r` separates two entries with no newline between them: the code
   * stores two entries in a table allocated for one.
   */
  lemma CarriageReturnOverflowsTable()
    ensures CountFrom(CR_FILE, NL, 0) + 1 == 1
    ensures |LinkTableAsWritten(CR_FILE).entries| == 2
  {
    CrFileNoNewline();
    CrFileShape();
    var st := CrFirstLine(CR_FILE);
    CrSecondLine(CR_FILE, st);
  }

  lemma CrFileNoNewline()
    ensures CountFrom(CR_FILE, NL, 0) == 0
  {
    assert forall j :: 0 <= j < |CR_FILE| ==> CR_FILE[j] != NL;
    CountAbsent(CR_FILE, NL, 0);
  }

  lemma CrFileShape()
    ensures |CR_FILE| == 22 && CR_FILE[0..8] == LOWEST && CR_FILE[12..20] == LOWEST
  {
    assert forall j :: 0 <= j < 8 ==> CR_FILE[12 + j] == LOWEST[j];
  }

  /** A line that starts `80000000:` has the lowest address kept. */
  lemma LowestAt(lt: seq<byte>, i: nat)
    requires i + 8 < |lt| && lt[i..i + 8] == LOWEST && lt[i + 8] == COLON
    ensures ScanAddress(lt, i, 0) == AddrScan(i + 9, MIN_ADDRESS, false)
  {
    LowestValue();
    ScanIsHex(lt, i, i + 8);
  }

  lemma CrFirstLine(lt: seq<byte>) returns (st: LinkState)
    requires |lt| == 22 && lt[0..8] == LOWEST && lt[8] == COLON && lt[9] == 97 && lt[10] == CR
    ensures st == LinkState([LinkEntry([97], MIN_ADDRESS)], [97, 0], [], false)
    ensures LinkTableAsWritten(lt) == LinkFrom(lt, 12, 2, st)
  {
    assert SymbolEnd(lt, 10) == 10;
    assert SymbolEnd(lt, 9) == 10;
    assert lt[9..10] == [97] && AfterSymbol(lt, 10) == 11;
    LowestAt(lt, 0);
    st := LinkState([LinkEntry([97], MIN_ADDRESS)], [97, 0], [], false);
    var init := LinkState([], [], [], false);
    var r := ParseTurn(lt, 0, 1, init);
    assert r.0 == 12;
    assert r.1.entries == [LinkEntry([97], MIN_ADDRESS)];
    assert r.1.symbols == [97, 0];
    assert r.1.warnings == [] && !r.1.err;
    assert LinkTableAsWritten(lt) == LinkFrom(lt, 0, 1, init);
  }

  lemma CrSecondLine(lt: seq<byte>, st: LinkState)
    requires |lt| == 22 && lt[12..20] == LOWEST && lt[20] == COLON && lt[21] == 98
    requires |st.entries| == 1 && !st.err
    ensures |LinkFrom(lt, 12, 2, st).entries| == 2
  {
    assert SymbolEnd(lt, 22) == 22;
    assert SymbolEnd(lt, 21) == 22;
    assert lt[21..22] == [98] && AfterSymbol(lt, 22) == 22;
    LowestAt(lt, 12);
    var st' := ParseTurn(lt, 12, 2, st).1;
    assert ParseTurn(lt, 12, 2, st) == (23, st');
    assert |st'.entries| == 2;
    assert LinkFrom(lt, 12, 2, st) == LinkFrom(lt, 23, 3, st');
  }

  /**
   * The symbol loop writes whatever follows a rejected address byte: the
   * one-byte file `X` puts two bytes into a buffer allocated for one,
   * where the corrected table has no symbol to store.
   */
  lemma MalformedLineOverflowsSymbols()
    ensures |LinkTableAsWritten([88]).symbols| == 2 > |[88]|
    ensures SymbolBuffer(LinkTable([88])) == []
  {
    var lt: seq<byte> := [88];
    assert ScanAddress(lt, 0, 0) == AddrScan(0, 0, true);
    assert SymbolEnd(lt, 1) == 1;
    assert SymbolEnd(lt, 0) == 1;
    assert lt[0..1] == [88] && AfterSymbol(lt, 1) == 1;
    var init := LinkState([], [], [], false);
    var r := ParseTurn(lt, 0, 1, init);
    assert r.0 == 2;
    assert r.1.symbols == [88, 0];
    assert LinkTableAsWritten(lt) == LinkFrom(lt, 2, 2, r.1);
    assert NextNewline(lt, 1) == 1;
    assert NextNewline(lt, 0) == 1;
    LinesFromStep(lt, 0);
    assert Lines(lt) == [[88]];
    assert ParseLine([88]) == None;
    assert EntriesOf([[88]]) == EntryOf([88]) + EntriesOf([]);
  }
}
