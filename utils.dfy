/**
 * The string helpers of the tools' shared header: `read_lines`, which splits
 * a file into NUL-terminated lines, `my_stpcpy`, `inner_name` and
 * `path_join`. Strings are byte sequences; a C string is its bytes before
 * the terminating NUL, so it never contains 0.
 */
module Utils {
  import opened Wrappers
  import opened Bytes

  const NL: byte := 10
  const SLASH: byte := 47
  const BACKSLASH: byte := 92
  const DOT: byte := 46

  /** The bytes of a C string: no NUL inside. */
  predicate IsCString(s: seq<byte>)
  {
    forall i :: 0 <= i < |s| ==> s[i] != 0
  }

  // ------------------------------------------------------------- read_lines

  /** How many bytes of `s` from index `from` on equal `c`. */
  function CountFrom(s: seq<byte>, c: byte, from: nat): (n: nat)
    decreases |s| - from
  {
    if from >= |s| then 0 else (if s[from] == c then 1 else 0) + CountFrom(s, c, from + 1)
  }

  /** A stretch holding no `c` adds nothing to the count. */
  lemma {:induction false} CountSkips(s: seq<byte>, c: byte, from: nat, until: nat)
    requires from <= until <= |s| && forall j :: from <= j < until ==> s[j] != c
    ensures CountFrom(s, c, from) == CountFrom(s, c, until)
    decreases until - from
  {
    if from < until {
      CountSkips(s, c, from + 1, until);
    }
  }

  /** The number of lines `read_lines` counts: one per newline, plus an unterminated last one. */
  function LineCount(s: seq<byte>): nat
  {
    if s == [] then 0 else CountFrom(s, NL, 0) + Unterminated(s)
  }

  /** One for a last line that no newline ends, else zero. */
  function Unterminated(s: seq<byte>): nat
  {
    if s != [] && s[|s| - 1] != NL then 1 else 0
  }

  /** The index of the first newline at or after `from`, or `|s|` when there is none. */
  function NextNewline(s: seq<byte>, from: nat): (k: nat)
    requires from <= |s|
    ensures from <= k <= |s| && (k < |s| ==> s[k] == NL)
    ensures forall j :: from <= j < k ==> s[j] != NL
    decreases |s| - from
  {
    if from == |s| || s[from] == NL then from else NextNewline(s, from + 1)
  }

  /** A newline-free stretch ending at a newline or at the end is the one `NextNewline` finds. */
  lemma {:induction false} NextNewlineIs(s: seq<byte>, from: nat, k: nat)
    requires from <= k <= |s| && (k < |s| ==> s[k] == NL)
    requires forall j :: from <= j < k ==> s[j] != NL
    ensures NextNewline(s, from) == k
    decreases k - from
  {
    if from < k {
      NextNewlineIs(s, from + 1, k);
    }
  }

  /**
   * The lines of `s` from `start` on, as `read_lines` cuts them: each runs
   * to the next newline or the end, and a newline at the very end does not
   * start another line.
   */
  function LinesFrom(s: seq<byte>, start: nat): (ls: seq<seq<byte>>)
    decreases |s| - start
  {
    if start >= |s| then []
    else
      var k := NextNewline(s, start);
      [s[start..k]] + LinesFrom(s, k + 1)
  }

  function Lines(s: seq<byte>): seq<seq<byte>>
  {
    LinesFrom(s, 0)
  }

  /** The lines joined back together, one newline between each two. */
  function Join(ls: seq<seq<byte>>): seq<byte>
  {
    if ls == [] then []
    else if |ls| == 1 then ls[0]
    else ls[0] + [NL] + Join(ls[1..])
  }

  /** The number of lines is the count `read_lines` allocates the table for. */
  lemma LinesCount(s: seq<byte>)
    ensures |Lines(s)| == LineCount(s)
  {
    if s != [] {
      LinesFromCount(s, 0);
    }
  }

  lemma {:induction false} LinesFromCount(s: seq<byte>, start: nat)
    requires start < |s|
    ensures |LinesFrom(s, start)| == CountFrom(s, NL, start) + Unterminated(s)
    decreases |s| - start
  {
    var k := NextNewline(s, start);
    LineStep(s, start);
    if k + 1 < |s| {
      LinesFromCount(s, k + 1);
    } else {
      LastLineStep(s, start);
    }
  }

  /** One line read takes one newline, if it ends in one, off the count. */
  lemma LineStep(s: seq<byte>, start: nat)
    requires start < |s|
    ensures var k := NextNewline(s, start);
      && |LinesFrom(s, start)| == 1 + |LinesFrom(s, k + 1)|
      && CountFrom(s, NL, start) == (if k < |s| then 1 else 0) + CountFrom(s, NL, k + 1)
  {
    var k := NextNewline(s, start);
    CountSkips(s, NL, start, k);
  }

  /** The last line leaves nothing to count, and it ends in a newline exactly when the file does. */
  lemma LastLineStep(s: seq<byte>, start: nat)
    requires start < |s| && NextNewline(s, start) + 1 >= |s|
    ensures var k := NextNewline(s, start);
      && |LinesFrom(s, k + 1)| == 0 && CountFrom(s, NL, k + 1) == 0
      && (if k < |s| then 1 else 0) + Unterminated(s) == 1
  {
  }

  /** No line holds a newline. */
  lemma {:induction false} LinesHaveNoNewline(s: seq<byte>, start: nat)
    ensures forall i, j :: 0 <= i < |LinesFrom(s, start)| && 0 <= j < |LinesFrom(s, start)[i]| ==>
      LinesFrom(s, start)[i][j] != NL
    decreases |s| - start
  {
    if start < |s| {
      LinesHaveNoNewline(s, NextNewline(s, start) + 1);
    }
  }

  /** The newline that ends `s`, if it ends in one. */
  function FinalNewline(s: seq<byte>): seq<byte>
  {
    if s != [] && s[|s| - 1] == NL then [NL] else []
  }

  /** The lines joined with newlines give back the file, less a final newline. */
  lemma JoinLines(s: seq<byte>)
    ensures Join(Lines(s)) + FinalNewline(s) == s
  {
    if s != [] {
      JoinLinesFrom(s, 0);
      assert s[0..] == s;
    }
  }

  lemma {:induction false} JoinLinesFrom(s: seq<byte>, start: nat)
    requires start < |s|
    ensures Join(LinesFrom(s, start)) + FinalNewline(s) == s[start..]
    decreases |s| - start
  {
    var k := NextNewline(s, start);
    if k + 1 >= |s| {
      JoinLastLine(s, start);
    } else {
      JoinLinesFrom(s, k + 1);
      JoinNextLine(s, start);
      LineThenRest(s, start, k, Join(LinesFrom(s, k + 1)), FinalNewline(s));
    }
  }

  /** Splicing a line, its newline and the rest back together gives the suffix. */
  lemma LineThenRest(s: seq<byte>, start: nat, k: nat, j: seq<byte>, t: seq<byte>)
    requires start <= k < |s| && s[k] == NL && j + t == s[k + 1..]
    ensures s[start..k] + [NL] + j + t == s[start..]
  {
    assert s[start..k] + [NL] + j + t == s[start..k] + [NL] + (j + t);
    assert s[start..] == s[start..k] + [NL] + s[k + 1..];
  }

  /** The last line is the rest of the file, less a final newline. */
  lemma JoinLastLine(s: seq<byte>, start: nat)
    requires start < |s| && NextNewline(s, start) + 1 >= |s|
    ensures Join(LinesFrom(s, start)) + FinalNewline(s) == s[start..]
  {
    var k := NextNewline(s, start);
    assert LinesFrom(s, k + 1) == [];
    assert LinesFrom(s, start) == [s[start..k]];
    if k == |s| {
      assert s[start..] == s[start..k];
    } else {
      assert s[start..] == s[start..k] + [NL];
    }
  }

  /** A line followed by more lines joins as the line, a newline, then the rest joined. */
  lemma JoinNextLine(s: seq<byte>, start: nat)
    requires start < |s| && NextNewline(s, start) + 1 < |s|
    ensures Join(LinesFrom(s, start)) == s[start..NextNewline(s, start)] + [NL] + Join(LinesFrom(s, NextNewline(s, start) + 1))
  {
    var k := NextNewline(s, start);
    var rest := LinesFrom(s, k + 1);
    assert LinesFrom(s, start) == [s[start..k]] + rest;
    assert rest != [];
    assert ([s[start..k]] + rest)[1..] == rest;
  }

  /** The counting loop of `read_lines`. */
  method CountLines(file: seq<byte>) returns (lineCount: nat)
    requires file != []
    ensures lineCount == LineCount(file)
  {
    lineCount := 0;
    var i := 0;
    while i < |file|
      invariant i <= |file| && lineCount + CountFrom(file, NL, i) == CountFrom(file, NL, 0)
    {
      if file[i] == NL {
        lineCount := lineCount + 1;
      }
      i := i + 1;
    }
    if file[|file| - 1] != NL {
      lineCount := lineCount + 1;
    }
  }

  /**
   * `read_lines`: a table of `LineCount(file) + 1` slots holding each line
   * (`Some`) and then the terminating `NULL` (`None`); a file of no bytes
   * gives the table of `NULL` alone.
   */
  method ReadLines(file: seq<byte>) returns (table: array<Option<seq<byte>>>)
    ensures table.Length == LineCount(file) + 1 == |Lines(file)| + 1
    ensures forall i :: 0 <= i < |Lines(file)| ==> table[i] == Some(Lines(file)[i])
    ensures table[|Lines(file)|] == None
  {
    LinesCount(file);
    if |file| == 0 {
      table := new Option<seq<byte>>[1](_ => None);
      return;
    }
    var lineCount := CountLines(file);
    table := new Option<seq<byte>>[lineCount + 1](_ => None);
    FillLines(file, table);
    table[lineCount] := None;
  }

  /** The line loop of `read_lines`: each line copied out into the next slot of the table. */
  method FillLines(file: seq<byte>, table: array<Option<seq<byte>>>)
    requires table.Length == |Lines(file)| + 1
    modifies table
    ensures forall i :: 0 <= i < |Lines(file)| ==> table[i] == Some(Lines(file)[i])
  {
    var tableI := 0;
    var lineStart := 0;
    while lineStart < |file|
      invariant tableI <= |Lines(file)| && Lines(file)[tableI..] == LinesFrom(file, lineStart)
      invariant forall i :: 0 <= i < tableI ==> table[i] == Some(Lines(file)[i])
      decreases |file| - lineStart
    {
      var lineI := ScanLine(file, lineStart);
      var line := file[lineStart..lineStart + lineI];
      LinesFromStep(file, lineStart);
      assert Lines(file)[tableI] == line;
      assert Lines(file)[tableI + 1..] == Lines(file)[tableI..][1..];
      table[tableI] := Some(line);
      tableI := tableI + 1;
      lineStart := lineStart + lineI + 1;
    }
  }

  /** The lines from `start` on: the one up to the next newline, then those after it. */
  lemma LinesFromStep(s: seq<byte>, start: nat)
    requires start < |s|
    ensures LinesFrom(s, start) == [s[start..NextNewline(s, start)]] + LinesFrom(s, NextNewline(s, start) + 1)
  {
  }

  /** The inner loop of `read_lines`: the length of the line starting at `lineStart`. */
  method ScanLine(file: seq<byte>, lineStart: nat) returns (lineI: nat)
    requires lineStart <= |file|
    ensures lineStart + lineI == NextNewline(file, lineStart)
  {
    lineI := 0;
    while lineStart + lineI < |file| && file[lineStart + lineI] != NL
      invariant lineStart + lineI <= |file|
      invariant forall j :: lineStart <= j < lineStart + lineI ==> file[j] != NL
    {
      lineI := lineI + 1;
    }
    NextNewlineIs(file, lineStart, lineStart + lineI);
  }

  // -------------------------------------------------------------- my_stpcpy

  /**
   * `my_stpcpy`: the bytes of `str` and its NUL copied to `buf` at `at`;
   * the result is the position of the copied NUL.
   */
  method StpCpy(buf: array<byte>, at: nat, str: seq<byte>) returns (end: nat)
    requires IsCString(str) && at + |str| < buf.Length
    modifies buf
    ensures end == at + |str|
    ensures buf[..] == old(buf[..at]) + str + [0] + old(buf[end + 1..])
  {
    var k := 0;
    while true
      invariant k <= |str|
      invariant forall j :: 0 <= j < buf.Length ==>
        buf[j] == if at <= j < at + k then str[j - at] else old(buf[j])
      decreases |str| - k
    {
      var c := if k < |str| then str[k] else 0;
      buf[at + k] := c;
      if c == 0 {
        end := at + k;
        assert k == |str|;
        assert buf[..] == old(buf[..at]) + str + [0] + old(buf[end + 1..]);
        return;
      }
      k := k + 1;
    }
  }

  // ------------------------------------------------------------- inner_name

  /** The separators `inner_name` cuts the directories at. */
  predicate IsSeparator(c: byte)
  {
    c == SLASH || c == BACKSLASH
  }

  /** Where the file name starts: just past the last separator, or 0. */
  function NameStart(path: seq<byte>): (start: nat)
    ensures start <= |path| && (start > 0 ==> IsSeparator(path[start - 1]))
    ensures forall i :: start <= i < |path| ==> !IsSeparator(path[i])
  {
    if path == [] then 0
    else if IsSeparator(path[|path| - 1]) then |path|
    else NameStart(path[..|path| - 1])
  }

  /** The last period of `path` past `from`, or 0 when there is none. */
  function LastPeriod(path: seq<byte>, from: nat): (period: nat)
    ensures period == 0 || (from < period < |path| && path[period] == DOT)
    ensures forall i :: (if period == 0 then from else period) < i < |path| ==> path[i] != DOT
  {
    if |path| <= from + 1 then 0
    else if path[|path| - 1] == DOT then |path| - 1
    else
      var p := LastPeriod(path[..|path| - 1], from);
      p
  }

  /** `inner_name`: the file name of `path` without its extension. */
  function InnerNameOf(path: seq<byte>): seq<byte>
  {
    var start := NameStart(path);
    var period := LastPeriod(path, start);
    if period != 0 then path[start..period] else path[start..]
  }

  /**
   * `inner_name`, loop by loop: the last separator, then the last period
   * past the file name's first byte, then the copy cut at that period.
   */
  method InnerName(path: seq<byte>) returns (inner: seq<byte>)
    requires IsCString(path)
    ensures inner == InnerNameOf(path)
  {
    var start := FindNameStart(path);
    var period := FindPeriod(path, start);
    inner := path[start..];
    if period != 0 {
      inner := inner[..period - start];
    }
  }

  /** The first loop of `inner_name`: just past the last separator. */
  method FindNameStart(path: seq<byte>) returns (start: nat)
    ensures start == NameStart(path)
  {
    start := 0;
    var i := 0;
    while i < |path|
      invariant i <= |path| && start == NameStart(path[..i])
    {
      assert path[..i + 1][..i] == path[..i];
      if path[i] == SLASH || path[i] == BACKSLASH {
        start := i + 1;
      }
      i := i + 1;
    }
    assert path[..i] == path;
  }

  /** The second loop of `inner_name`: the last period past the name's first byte. */
  method FindPeriod(path: seq<byte>, start: nat) returns (period: nat)
    ensures period == LastPeriod(path, start)
  {
    period := 0;
    if start + 1 >= |path| {
      return;
    }
    var i := start + 1;
    while i < |path|
      invariant start + 1 <= i <= |path| && period == LastPeriod(path[..i], start)
    {
      assert path[..i + 1][..i] == path[..i];
      if path[i] == DOT {
        period := i;
      }
      i := i + 1;
    }
    assert path[..i] == path;
  }

  /**
   * The name `inner_name` returns is the file name less its extension:
   * `path` is the directories, the name, then nothing or a period and an
   * extension holding no period, and the name holds no separator.
   */
  lemma InnerNameParts(path: seq<byte>)
    ensures var start := NameStart(path); var r := InnerNameOf(path);
      && start + |r| <= |path| && path[start..start + |r|] == r
      && (forall i :: 0 <= i < |r| ==> !IsSeparator(r[i]))
      && (start + |r| == |path| || (path[start + |r|] == DOT && |r| > 0))
      && (forall i :: start + |r| < i < |path| ==> path[i] != DOT)
  {
    var start := NameStart(path);
    var period := LastPeriod(path, start);
    var r := InnerNameOf(path);
    if period != 0 {
      PeriodCut(path, start, period, r);
    } else {
      assert r == path[start..];
    }
  }

  /** A name cut at a period is the bytes between the separator and that period. */
  lemma PeriodCut(path: seq<byte>, start: nat, period: nat, r: seq<byte>)
    requires start < period < |path| && path[period] == DOT && r == path[start..period]
    ensures start + |r| == period && path[start..start + |r|] == r
  {
  }

  /** The directories are cut at the last separator, the extension at the last period. */
  lemma InnerNameCuts(path: seq<byte>)
    ensures var start := NameStart(path);
      && (start == 0 || IsSeparator(path[start - 1]))
      && (forall i :: start <= i < |path| ==> !IsSeparator(path[i]))
      && (forall i :: start + 1 <= i < |path| && path[i] == DOT ==> i <= start + |InnerNameOf(path)|)
  {
  }

  // -------------------------------------------------------------- path_join

  /** One step of `path_join`: a separator unless the text is empty or ends with one, then the part. */
  function JoinStep(acc: seq<byte>, part: seq<byte>, sep: byte): seq<byte>
  {
    (if acc != [] && acc[|acc| - 1] != sep then acc + [sep] else acc) + part
  }

  /** The path `path_join` builds from `first` and the later parts. */
  function JoinOf(first: seq<byte>, parts: seq<seq<byte>>, sep: byte): seq<byte>
  {
    if parts == [] then first
    else JoinStep(JoinOf(first, parts[..|parts| - 1], sep), parts[|parts| - 1], sep)
  }

  /** The length `path_join` allocates for: each later part with room for a separator. */
  function JoinBudget(first: seq<byte>, parts: seq<seq<byte>>): nat
  {
    if parts == [] then |first|
    else JoinBudget(first, parts[..|parts| - 1]) + 1 + |parts[|parts| - 1]|
  }

  /** The joined path fits the length `path_join` allocated. */
  lemma {:induction false} JoinFits(first: seq<byte>, parts: seq<seq<byte>>, sep: byte)
    ensures |JoinOf(first, parts, sep)| <= JoinBudget(first, parts)
    decreases |parts|
  {
    if parts != [] {
      JoinFits(first, parts[..|parts| - 1], sep);
    }
  }

  /** The bytes of the joined path are the parts' bytes and separators, so it is a C string. */
  lemma {:induction false} JoinIsCString(first: seq<byte>, parts: seq<seq<byte>>, sep: byte)
    requires IsCString(first) && sep != 0
    requires forall k :: 0 <= k < |parts| ==> IsCString(parts[k])
    ensures IsCString(JoinOf(first, parts, sep))
    decreases |parts|
  {
    if parts != [] {
      JoinIsCString(first, parts[..|parts| - 1], sep);
    }
  }

  /** Parts joined with one separator between each two, as when none needs special treatment. */
  function Separated(first: seq<byte>, parts: seq<seq<byte>>, sep: byte): seq<byte>
  {
    if parts == [] then first
    else Separated(first, parts[..|parts| - 1], sep) + [sep] + parts[|parts| - 1]
  }

  /**
   * When every part is non-empty and none ends with the separator,
   * `path_join` puts exactly one separator between each two parts.
   */
  lemma {:induction false} JoinSeparates(first: seq<byte>, parts: seq<seq<byte>>, sep: byte)
    requires first != [] && first[|first| - 1] != sep
    requires forall k :: 0 <= k < |parts| ==> parts[k] != [] && parts[k][|parts[k]| - 1] != sep
    ensures JoinOf(first, parts, sep) == Separated(first, parts, sep)
    ensures JoinOf(first, parts, sep) != [] && JoinOf(first, parts, sep)[|JoinOf(first, parts, sep)| - 1] != sep
    decreases |parts|
  {
    if parts != [] {
      JoinSeparates(first, parts[..|parts| - 1], sep);
    }
  }

  /** A part following text that ends with the separator is appended without another. */
  lemma JoinAfterSeparator(acc: seq<byte>, part: seq<byte>, sep: byte)
    requires acc == [] || acc[|acc| - 1] == sep
    ensures JoinStep(acc, part, sep) == acc + part
  {
  }

  /** The length-counting loop of `path_join`. */
  method JoinLength(first: seq<byte>, parts: seq<seq<byte>>) returns (len: nat)
    ensures len == JoinBudget(first, parts)
  {
    len := |first|;
    var i := 0;
    while i < |parts|
      invariant i <= |parts| && len == JoinBudget(first, parts[..i])
    {
      assert parts[..i + 1][..i] == parts[..i];
      len := len + 1 + |parts[i]|;
      i := i + 1;
    }
    assert parts[..i] == parts;
  }

  /**
   * `path_join(first, parts..., NULL)` with `sep` for `PATH_SEPARATOR`: a
   * buffer of the counted length plus the NUL, holding the joined path
   * (`end` is the position of its NUL).
   */
  method PathJoin(first: seq<byte>, parts: seq<seq<byte>>, sep: byte) returns (path: array<byte>, end: nat)
    requires IsCString(first) && sep != 0
    requires forall k :: 0 <= k < |parts| ==> IsCString(parts[k])
    ensures path.Length == JoinBudget(first, parts) + 1 && end < path.Length
    ensures path[..end] == JoinOf(first, parts, sep) && path[end] == 0
  {
    var len := JoinLength(first, parts);
    path := new byte[len + 1];
    BudgetGrows(first, parts, 0);
    assert parts[..0] == [];
    end := StpCpy(path, 0, first);
    var i := 0;
    while i < |parts|
      invariant i <= |parts| && path.Length == len + 1
      invariant end <= len && end <= JoinBudget(first, parts[..i]) && path[..end] == JoinOf(first, parts[..i], sep) && path[end] == 0
    {
      assert parts[..i + 1][..i] == parts[..i];
      BudgetGrows(first, parts, i + 1);
      end := AppendPart(path, end, parts[i], sep);
      i := i + 1;
    }
    assert parts[..i] == parts;
  }

  /** The loop body of `path_join`: a separator unless the text is empty or ends with one, then the part. */
  method AppendPart(path: array<byte>, end: nat, part: seq<byte>, sep: byte) returns (end': nat)
    requires IsCString(part) && sep != 0 && end + 1 + |part| < path.Length
    modifies path
    ensures end' <= end + 1 + |part| && path[..end'] == JoinStep(old(path[..end]), part, sep) && path[end'] == 0
  {
    ghost var acc := path[..end];
    end' := end;
    if end > 0 && path[end - 1] != sep {
      end' := StpCpy(path, end, [sep]);
      assert path[..end'] == acc + [sep];
    }
    ghost var mid := path[..end'];
    end' := StpCpy(path, end', part);
    assert path[..end'] == mid + part;
  }

  /** The budget of a longer prefix of the parts is no smaller. */
  lemma {:induction false} BudgetGrows(first: seq<byte>, parts: seq<seq<byte>>, n: nat)
    requires n <= |parts|
    ensures JoinBudget(first, parts[..n]) <= JoinBudget(first, parts)
    decreases |parts| - n
  {
    if n < |parts| {
      BudgetGrows(first, parts, n + 1);
      assert parts[..n + 1][..n] == parts[..n];
    } else {
      assert parts[..n] == parts;
    }
  }
}
