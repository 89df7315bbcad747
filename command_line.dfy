/**
 * `read_args`, the command-line reader of the tools' shared header. A tool
 * declares three tables of flags: flags without an argument (each sets a
 * bit of a flag word), flags taking one argument (stored in a target
 * string) and flags taking every following argument up to the next one
 * that starts with `-` (stored in a table of at most `MAX_INPUT_FILES`
 * strings with a count). What `read_args` writes through its pointers is
 * returned here as an `ArgState`; its messages to stderr are the
 * `warnings` it accumulates.
 */
module CommandLine {
  import opened Wrappers
  import opened Bytes

  const MAX_INPUT_FILES: nat := 512
  const DASH: byte := 45

  /**
   * A 64-bit flag word (`uint64_t`), as the set of the positions of its
   * one bits: `|` is union, `&` intersection.
   */
  type Word = set<nat>

  /** A flag without an argument and the bits it sets. */
  datatype NoArgFlag = NoArgFlag(name: seq<byte>, bit: Word)

  /** The flags a tool declares, by kind, in the order `read_args` tries them. */
  datatype FlagTable = FlagTable(noArg: seq<NoArgFlag>, single: seq<seq<byte>>, multi: seq<seq<byte>>)

  /** The messages `read_args` prints; none of them stops the reading. */
  datatype ArgWarning =
    | MissingArgument(flag: seq<byte>)
    | TooManyArguments(input: seq<byte>)
    | UnknownFlag(arg: seq<byte>)

  /**
   * The targets of `read_args`: the flag word, one string per
   * single-argument flag, one table per multi-argument flag, and the
   * messages printed. A table's length is its count; a slot holding `None`
   * is one the count covers but nothing has written.
   */
  datatype ArgState = ArgState(
    flags: Word,
    singles: seq<Option<seq<byte>>>,
    multis: seq<seq<Option<seq<byte>>>>,
    warnings: seq<ArgWarning>)

  /** One target per declared flag. */
  predicate Fits(ft: FlagTable, st: ArgState)
  {
    |st.singles| == |ft.single| && |st.multis| == |ft.multi|
  }

  /** An argument that ends the arguments of a multi-argument flag. */
  predicate StartsWithDash(s: seq<byte>)
  {
    s != [] && s[0] == DASH
  }

  /** A freshly allocated table whose first `n` slots are counted but hold nothing. */
  function Uninitialised(n: nat): (t: seq<Option<seq<byte>>>)
    ensures |t| == n && forall k :: 0 <= k < n ==> t[k] == None
  {
    seq(n, _ => None)
  }

  /** The first no-argument flag from `from` on named `arg`, or `|flags|`. */
  function NoArgIndex(flags: seq<NoArgFlag>, arg: seq<byte>, from: nat): (j: nat)
    requires from <= |flags|
    ensures from <= j <= |flags| && (j < |flags| ==> flags[j].name == arg)
    ensures forall k :: from <= k < j ==> flags[k].name != arg
    decreases |flags| - from
  {
    if from == |flags| || flags[from].name == arg then from else NoArgIndex(flags, arg, from + 1)
  }

  /** The first name from `from` on equal to `arg`, or `|names|`. */
  function NameIndex(names: seq<seq<byte>>, arg: seq<byte>, from: nat): (j: nat)
    requires from <= |names|
    ensures from <= j <= |names| && (j < |names| ==> names[j] == arg)
    ensures forall k :: from <= k < j ==> names[k] != arg
    decreases |names| - from
  {
    if from == |names| || names[from] == arg then from else NameIndex(names, arg, from + 1)
  }

  /** What the single-argument loop leaves: the targets, the messages, the next argument and whether it took one. */
  datatype SingleOutcome = SingleOutcome(
    singles: seq<Option<seq<byte>>>,
    warnings: seq<ArgWarning>,
    next: nat,
    handled: bool)

  /**
   * The single-argument loop from flag `from` on, for the argument `arg`
   * whose successor is `argv[next]`: each flag named `arg` with no
   * argument after it prints a message and the loop goes on; the first one
   * with an argument takes it.
   */
  function SingleScan(names: seq<seq<byte>>, argv: seq<seq<byte>>, next: nat, arg: seq<byte>,
                      from: nat, singles: seq<Option<seq<byte>>>, warnings: seq<ArgWarning>): (o: SingleOutcome)
    requires from <= |names| && |singles| == |names| && next <= |argv|
    ensures |o.singles| == |names| && next <= o.next <= |argv|
    decreases |names| - from
  {
    if from == |names| then SingleOutcome(singles, warnings, next, false)
    else if names[from] != arg then SingleScan(names, argv, next, arg, from + 1, singles, warnings)
    else if next >= |argv| then
      SingleScan(names, argv, next, arg, from + 1, singles, warnings + [MissingArgument(names[from])])
    else SingleOutcome(singles[from := Some(argv[next])], warnings, next + 1, true)
  }

  /** What the multi-argument loop leaves: the table, the messages and the next argument. */
  datatype Taken = Taken(table: seq<Option<seq<byte>>>, warnings: seq<ArgWarning>, next: nat)

  /**
   * The multi-argument loop from `argv[i]` on: arguments are taken until
   * one starts with `-`; once the count reaches `MAX_INPUT_FILES` each
   * further one is skipped with a message.
   */
  function TakeInputs(argv: seq<seq<byte>>, i: nat, table: seq<Option<seq<byte>>>,
                      warnings: seq<ArgWarning>): (t: Taken)
    requires i <= |argv|
    ensures i <= t.next <= |argv|
    decreases |argv| - i
  {
    if i == |argv| || StartsWithDash(argv[i]) then Taken(table, warnings, i)
    else if |table| == MAX_INPUT_FILES then
      TakeInputs(argv, i + 1, table, warnings + [TooManyArguments(argv[i])])
    else TakeInputs(argv, i + 1, table + [Some(argv[i])], warnings)
  }

  /**
   * One turn of the outer loop of `read_args` on `argv[i]`: the first
   * no-argument flag of that name sets its bit; else the single-argument
   * flags are tried; else the first multi-argument flag of that name
   * allocates its table and takes the arguments after it; else the
   * argument is reported unknown. With `realloc` the table is allocated
   * anew every time the flag appears and its count kept, as the code does;
   * without it the table is kept and extended.
   */
  function Step(ft: FlagTable, argv: seq<seq<byte>>, i: nat, st: ArgState, realloc: bool): (r: (ArgState, nat))
    requires i < |argv| && Fits(ft, st)
    ensures Fits(ft, r.0) && i < r.1 <= |argv|
  {
    var arg := argv[i];
    var j := NoArgIndex(ft.noArg, arg, 0);
    if j < |ft.noArg| then (st.(flags := st.flags + ft.noArg[j].bit), i + 1)
    else
      var s := SingleScan(ft.single, argv, i + 1, arg, 0, st.singles, st.warnings);
      if s.handled then (st.(singles := s.singles, warnings := s.warnings), s.next)
      else
        var m := NameIndex(ft.multi, arg, 0);
        if m < |ft.multi| then
          var table := if realloc then Uninitialised(|st.multis[m]|) else st.multis[m];
          var t := TakeInputs(argv, i + 1, table, s.warnings);
          (st.(multis := st.multis[m := t.table], warnings := t.warnings), t.next)
        else (st.(warnings := s.warnings + [UnknownFlag(arg)]), i + 1)
  }

  /** The outer loop of `read_args` from `argv[i]` to the end. */
  function ArgsFrom(ft: FlagTable, argv: seq<seq<byte>>, i: nat, st: ArgState, realloc: bool): (r: ArgState)
    requires Fits(ft, st)
    ensures Fits(ft, r)
    decreases |argv| - i
  {
    if i >= |argv| then st
    else
      var r := Step(ft, argv, i, st, realloc);
      ArgsFrom(ft, argv, r.1, r.0, realloc)
  }

  // ---------------------------------------------------------------- the code

  /** `read_args`: every argument after the program name, in order, as `ArgsFrom` reads them. */
  method ReadArgs(ft: FlagTable, argv: seq<seq<byte>>, init: ArgState) returns (st: ArgState)
    requires Fits(ft, init)
    ensures st == ArgsFrom(ft, argv, 1, init, true)
  {
    st := init;
    var argI := 1;
    while argI < |argv|
      invariant Fits(ft, st) && ArgsFrom(ft, argv, argI, st, true) == ArgsFrom(ft, argv, 1, init, true)
      decreases |argv| - argI
    {
      st, argI := StepArg(ft, argv, argI, st);
    }
  }

  /** The body of the outer loop of `read_args`. */
  method StepArg(ft: FlagTable, argv: seq<seq<byte>>, i: nat, st: ArgState) returns (st': ArgState, next: nat)
    requires i < |argv| && Fits(ft, st)
    ensures (st', next) == Step(ft, argv, i, st, true)
  {
    var arg := argv[i];
    var j := FindNoArg(ft.noArg, arg);
    if j < |ft.noArg| {
      return st.(flags := st.flags + ft.noArg[j].bit), i + 1;
    }
    var s := ScanSingles(ft.single, argv, i + 1, arg, st.singles, st.warnings);
    if s.handled {
      return st.(singles := s.singles, warnings := s.warnings), s.next;
    }
    var m := FindName(ft.multi, arg);
    if m < |ft.multi| {
      var t := TakeLoop(argv, i + 1, Uninitialised(|st.multis[m]|), s.warnings);
      return st.(multis := st.multis[m := t.table], warnings := t.warnings), t.next;
    }
    return st.(warnings := s.warnings + [UnknownFlag(arg)]), i + 1;
  }

  /** The no-argument loop: the first flag named `arg`. */
  method FindNoArg(flags: seq<NoArgFlag>, arg: seq<byte>) returns (j: nat)
    ensures j == NoArgIndex(flags, arg, 0)
  {
    j := 0;
    while j < |flags| && flags[j].name != arg
      invariant j <= |flags| && NoArgIndex(flags, arg, j) == NoArgIndex(flags, arg, 0)
    {
      j := j + 1;
    }
  }

  /** The multi-argument loop's search: the first flag named `arg`. */
  method FindName(names: seq<seq<byte>>, arg: seq<byte>) returns (j: nat)
    ensures j == NameIndex(names, arg, 0)
  {
    j := 0;
    while j < |names| && names[j] != arg
      invariant j <= |names| && NameIndex(names, arg, j) == NameIndex(names, arg, 0)
    {
      j := j + 1;
    }
  }

  /** The single-argument loop. */
  method ScanSingles(names: seq<seq<byte>>, argv: seq<seq<byte>>, next: nat, arg: seq<byte>,
                     singles: seq<Option<seq<byte>>>, warnings: seq<ArgWarning>) returns (o: SingleOutcome)
    requires |singles| == |names| && next <= |argv|
    ensures o == SingleScan(names, argv, next, arg, 0, singles, warnings)
  {
    var ws := warnings;
    var k := 0;
    while k < |names|
      invariant k <= |names|
      invariant SingleScan(names, argv, next, arg, k, singles, ws) == SingleScan(names, argv, next, arg, 0, singles, warnings)
    {
      if names[k] == arg {
        if next >= |argv| {
          ws := ws + [MissingArgument(names[k])];
        } else {
          return SingleOutcome(singles[k := Some(argv[next])], ws, next + 1, true);
        }
      }
      k := k + 1;
    }
    o := SingleOutcome(singles, ws, next, false);
  }

  /** The loop taking the arguments of a multi-argument flag. */
  method TakeLoop(argv: seq<seq<byte>>, i: nat, table: seq<Option<seq<byte>>>,
                  warnings: seq<ArgWarning>) returns (t: Taken)
    requires i <= |argv|
    ensures t == TakeInputs(argv, i, table, warnings)
  {
    var j, tb, ws := i, table, warnings;
    while j < |argv|
      invariant i <= j <= |argv| && TakeInputs(argv, j, tb, ws) == TakeInputs(argv, i, table, warnings)
      decreases |argv| - j
    {
      var input := argv[j];
      if input != [] && input[0] == DASH {
        break;
      } else if |tb| == MAX_INPUT_FILES {
        ws := ws + [TooManyArguments(input)];
      } else {
        tb := tb + [Some(input)];
      }
      j := j + 1;
    }
    t := Taken(tb, ws, j);
  }

  // ------------------------------------------------------------- properties

  /** `mask` holds every bit of every no-argument flag. */
  predicate CoversBits(flags: seq<NoArgFlag>, mask: Word)
  {
    forall k :: 0 <= k < |flags| ==> flags[k].bit <= mask
  }

  /** The flag word `b` keeps every bit of `a` and adds only bits of `mask`. */
  predicate OnlyAdds(a: Word, b: Word, mask: Word)
  {
    a <= b && b <= a + mask
  }

  /** One argument keeps every bit already set and sets none but a no-argument flag's. */
  lemma StepFlags(ft: FlagTable, argv: seq<seq<byte>>, i: nat, st: ArgState, realloc: bool, mask: Word)
    requires i < |argv| && Fits(ft, st) && CoversBits(ft.noArg, mask)
    ensures OnlyAdds(st.flags, Step(ft, argv, i, st, realloc).0.flags, mask)
  {
    var j := NoArgIndex(ft.noArg, argv[i], 0);
    if j < |ft.noArg| {
      assert ft.noArg[j].bit <= mask;
    }
  }

  /** An argument naming a no-argument flag ORs the first such flag's bit into the flag word and moves on. */
  lemma NoArgSetsBit(ft: FlagTable, argv: seq<seq<byte>>, i: nat, st: ArgState, realloc: bool, j: nat)
    requires i < |argv| && Fits(ft, st) && j < |ft.noArg| && ft.noArg[j].name == argv[i]
    requires forall k :: 0 <= k < j ==> ft.noArg[k].name != argv[i]
    ensures Step(ft, argv, i, st, realloc) == (st.(flags := st.flags + ft.noArg[j].bit), i + 1)
  {
    assert NoArgIndex(ft.noArg, argv[i], 0) == j;
  }

  /**
   * `read_args` only ever ORs bits into the flag word: the bits set before
   * stay set, and the ones it adds are bits of the no-argument flags.
   */
  lemma {:induction false} ArgsFlags(ft: FlagTable, argv: seq<seq<byte>>, i: nat, st: ArgState, realloc: bool, mask: Word)
    requires Fits(ft, st) && CoversBits(ft.noArg, mask)
    ensures OnlyAdds(st.flags, ArgsFrom(ft, argv, i, st, realloc).flags, mask)
    decreases |argv| - i
  {
    if i < |argv| {
      var r := Step(ft, argv, i, st, realloc);
      StepFlags(ft, argv, i, st, realloc, mask);
      ArgsFlags(ft, argv, r.1, r.0, realloc, mask);
    }
  }

  /** Every table within `MAX_INPUT_FILES` slots. */
  predicate TablesBounded(st: ArgState)
  {
    forall m :: 0 <= m < |st.multis| ==> |st.multis[m]| <= MAX_INPUT_FILES
  }

  /**
   * The arguments a multi-argument flag takes stop at the first one
   * starting with `-` or at the end; the table gets the ones before it,
   * in order, as long as there is room, and a message for each of the rest.
   */
  lemma {:induction false} TakeInputsFill(argv: seq<seq<byte>>, i: nat, table: seq<Option<seq<byte>>>,
                                          warnings: seq<ArgWarning>)
    requires i <= |argv| && |table| <= MAX_INPUT_FILES
    ensures var t := TakeInputs(argv, i, table, warnings);
      && (t.next == |argv| || StartsWithDash(argv[t.next]))
      && (forall k :: i <= k < t.next ==> !StartsWithDash(argv[k]))
      && |t.table| == (if |table| + (t.next - i) <= MAX_INPUT_FILES then |table| + (t.next - i) else MAX_INPUT_FILES)
      && t.table[..|table|] == table
      && (forall k :: |table| <= k < |t.table| ==> t.table[k] == Some(argv[i + k - |table|]))
      && |t.warnings| == |warnings| + (|table| + (t.next - i) - |t.table|)
    decreases |argv| - i
  {
    if i < |argv| && !StartsWithDash(argv[i]) {
      if |table| == MAX_INPUT_FILES {
        TakeInputsFill(argv, i + 1, table, warnings + [TooManyArguments(argv[i])]);
      } else {
        var t' := table + [Some(argv[i])];
        TakeInputsFill(argv, i + 1, t', warnings);
        assert t'[..|table|] == table;
      }
    }
  }

  /** No table the code writes grows past the `MAX_INPUT_FILES` slots it allocates. */
  lemma {:induction false} ArgsBounded(ft: FlagTable, argv: seq<seq<byte>>, i: nat, st: ArgState, realloc: bool)
    requires Fits(ft, st) && TablesBounded(st)
    ensures TablesBounded(ArgsFrom(ft, argv, i, st, realloc))
    decreases |argv| - i
  {
    if i < |argv| {
      var r := Step(ft, argv, i, st, realloc);
      StepBounded(ft, argv, i, st, realloc);
      ArgsBounded(ft, argv, r.1, r.0, realloc);
    }
  }

  lemma StepBounded(ft: FlagTable, argv: seq<seq<byte>>, i: nat, st: ArgState, realloc: bool)
    requires i < |argv| && Fits(ft, st) && TablesBounded(st)
    ensures TablesBounded(Step(ft, argv, i, st, realloc).0)
  {
    var arg := argv[i];
    if NoArgIndex(ft.noArg, arg, 0) == |ft.noArg| {
      var s := SingleScan(ft.single, argv, i + 1, arg, 0, st.singles, st.warnings);
      var m := NameIndex(ft.multi, arg, 0);
      if !s.handled && m < |ft.multi| {
        var table := if realloc then Uninitialised(|st.multis[m]|) else st.multis[m];
        TakeInputsFill(argv, i + 1, table, s.warnings);
      }
    }
  }

  /** A table every counted slot of which holds an argument. */
  predicate Filled(table: seq<Option<seq<byte>>>)
  {
    forall k :: 0 <= k < |table| ==> table[k].Some?
  }

  /** What a reading leaves in a multi table extends what was there, and nothing counted is left unwritten. */
  predicate TablesExtend(st: ArgState, r: ArgState)
  {
    |r.multis| == |st.multis| &&
    forall m :: 0 <= m < |st.multis| ==>
      |st.multis[m]| <= |r.multis[m]| && r.multis[m][..|st.multis[m]|] == st.multis[m] &&
      (Filled(st.multis[m]) ==> Filled(r.multis[m]))
  }

  lemma StepExtends(ft: FlagTable, argv: seq<seq<byte>>, i: nat, st: ArgState)
    requires i < |argv| && Fits(ft, st) && TablesBounded(st)
    ensures TablesExtend(st, Step(ft, argv, i, st, false).0)
  {
    var arg := argv[i];
    if NoArgIndex(ft.noArg, arg, 0) == |ft.noArg| {
      var s := SingleScan(ft.single, argv, i + 1, arg, 0, st.singles, st.warnings);
      var m := NameIndex(ft.multi, arg, 0);
      if !s.handled && m < |ft.multi| {
        TakeInputsFill(argv, i + 1, st.multis[m], s.warnings);
      }
    }
  }

  lemma ExtendsTrans(a: ArgState, b: ArgState, c: ArgState)
    requires TablesExtend(a, b) && TablesExtend(b, c)
    ensures TablesExtend(a, c)
  {
    forall m | 0 <= m < |a.multis|
      ensures c.multis[m][..|a.multis[m]|] == a.multis[m]
    {
      assert c.multis[m][..|a.multis[m]|] == c.multis[m][..|b.multis[m]|][..|a.multis[m]|];
    }
  }

  /**
   * With the table kept rather than allocated anew, a multi-argument flag
   * given again extends its table: the arguments taken before are still
   * there, and every counted slot holds an argument.
   */
  lemma {:induction false} CorrectedKeepsInputs(ft: FlagTable, argv: seq<seq<byte>>, i: nat, st: ArgState)
    requires Fits(ft, st) && TablesBounded(st)
    ensures TablesExtend(st, ArgsFrom(ft, argv, i, st, false))
    decreases |argv| - i
  {
    if i < |argv| {
      var r := Step(ft, argv, i, st, false);
      StepExtends(ft, argv, i, st);
      StepBounded(ft, argv, i, st, false);
      CorrectedKeepsInputs(ft, argv, r.1, r.0);
      ExtendsTrans(st, r.0, ArgsFrom(ft, argv, r.1, r.0, false));
    } else {
      assert forall m :: 0 <= m < |st.multis| ==> st.multis[m][..|st.multis[m]|] == st.multis[m];
    }
  }

  /** An argument naming no flag only adds an "unknown flag" message. */
  lemma UnknownOnlyWarns(ft: FlagTable, argv: seq<seq<byte>>, i: nat, st: ArgState, realloc: bool)
    requires i < |argv| && Fits(ft, st)
    requires forall k :: 0 <= k < |ft.noArg| ==> ft.noArg[k].name != argv[i]
    requires argv[i] !in ft.single && argv[i] !in ft.multi
    ensures Step(ft, argv, i, st, realloc) == (st.(warnings := st.warnings + [UnknownFlag(argv[i])]), i + 1)
  {
    SingleScanSkips(ft.single, argv, i + 1, argv[i], 0, st.singles, st.warnings);
  }

  /** No flag from `from` on of that name: the single-argument loop changes nothing. */
  lemma {:induction false} SingleScanSkips(names: seq<seq<byte>>, argv: seq<seq<byte>>, next: nat, arg: seq<byte>,
                                           from: nat, singles: seq<Option<seq<byte>>>, warnings: seq<ArgWarning>)
    requires from <= |names| && |singles| == |names| && next <= |argv|
    requires forall k :: from <= k < |names| ==> names[k] != arg
    ensures SingleScan(names, argv, next, arg, from, singles, warnings) == SingleOutcome(singles, warnings, next, false)
    decreases |names| - from
  {
    if from < |names| {
      SingleScanSkips(names, argv, next, arg, from + 1, singles, warnings);
    }
  }

  /** A single-argument flag followed by an argument stores that argument in the first flag of its name. */
  lemma SingleTakesNext(ft: FlagTable, argv: seq<seq<byte>>, i: nat, st: ArgState, realloc: bool)
    requires i + 1 < |argv| && Fits(ft, st)
    requires forall k :: 0 <= k < |ft.noArg| ==> ft.noArg[k].name != argv[i]
    requires argv[i] in ft.single
    ensures var j := NameIndex(ft.single, argv[i], 0);
      Step(ft, argv, i, st, realloc) == (st.(singles := st.singles[j := Some(argv[i + 1])]), i + 2)
  {
    var j := NameIndex(ft.single, argv[i], 0);
    SingleScanFirst(ft.single, argv, i + 1, argv[i], 0, st.singles, st.warnings);
  }

  /** With an argument to take, the first flag of that name from `from` on takes it. */
  lemma {:induction false} SingleScanFirst(names: seq<seq<byte>>, argv: seq<seq<byte>>, next: nat, arg: seq<byte>,
                                           from: nat, singles: seq<Option<seq<byte>>>, warnings: seq<ArgWarning>)
    requires from <= |names| && |singles| == |names| && next < |argv| && NameIndex(names, arg, from) < |names|
    ensures var j := NameIndex(names, arg, from);
      SingleScan(names, argv, next, arg, from, singles, warnings) ==
      SingleOutcome(singles[j := Some(argv[next])], warnings, next + 1, true)
    decreases |names| - from
  {
    if names[from] != arg {
      SingleScanFirst(names, argv, next, arg, from + 1, singles, warnings);
    }
  }

  /**
   * A single-argument flag given last, whose name no other flag has, is
   * reported twice: once as missing its argument and once as unknown.
   */
  lemma SingleMissingWarnsTwice(ft: FlagTable, argv: seq<seq<byte>>, st: ArgState, realloc: bool, j: nat)
    requires |argv| >= 2 && Fits(ft, st) && j < |ft.single| && ft.single[j] == argv[|argv| - 1]
    requires forall k :: 0 <= k < |ft.single| && k != j ==> ft.single[k] != ft.single[j]
    requires forall k :: 0 <= k < |ft.noArg| ==> ft.noArg[k].name != ft.single[j]
    requires ft.single[j] !in ft.multi
    ensures Step(ft, argv, |argv| - 1, st, realloc) ==
      (st.(warnings := st.warnings + [MissingArgument(ft.single[j]), UnknownFlag(ft.single[j])]), |argv|)
  {
    var arg := ft.single[j];
    SingleScanSkips(ft.single, argv, |argv|, arg, j + 1, st.singles, st.warnings + [MissingArgument(arg)]);
    SingleScanMissing(ft.single, argv, arg, 0, j, st.singles, st.warnings);
    assert st.warnings + [MissingArgument(arg)] + [UnknownFlag(arg)] ==
      st.warnings + [MissingArgument(arg), UnknownFlag(arg)];
  }

  /** Flags from `from` up to the only one named `arg`, with no argument left: nothing but its message. */
  lemma {:induction false} SingleScanMissing(names: seq<seq<byte>>, argv: seq<seq<byte>>, arg: seq<byte>,
                                             from: nat, j: nat, singles: seq<Option<seq<byte>>>, warnings: seq<ArgWarning>)
    requires from <= j < |names| && |singles| == |names| && names[j] == arg
    requires forall k :: from <= k < j ==> names[k] != arg
    ensures SingleScan(names, argv, |argv|, arg, from, singles, warnings) ==
      SingleScan(names, argv, |argv|, arg, j + 1, singles, warnings + [MissingArgument(arg)])
    decreases j - from
  {
    if from < j {
      SingleScanMissing(names, argv, arg, from + 1, j, singles, warnings);
    }
  }

  /**
   * `hmex -i a -i b`, with `-i` hmex's one multi-argument flag: as written,
   * the second `-i` allocates a fresh table but keeps the count, so the
   * table held afterwards counts two inputs and its first slot was never
   * written; keeping the table instead gives both inputs.
   */
  lemma RepeatedFlagLosesInputs()
    ensures var dashI: seq<byte> := [DASH, 105];
      var ft := FlagTable([], [], [dashI]);
      var argv: seq<seq<byte>> := [[104, 109, 101, 120], dashI, [97], dashI, [98]];
      var init := ArgState({}, [], [[]], []);
      && ArgsFrom(ft, argv, 1, init, true).multis[0] == [None, Some([98])]
      && ArgsFrom(ft, argv, 1, init, false).multis[0] == [Some([97]), Some([98])]
  {
    var dashI: seq<byte> := [DASH, 105];
    var ft := FlagTable([], [], [dashI]);
    var a: seq<byte>, b: seq<byte> := [97], [98];
    var argv: seq<seq<byte>> := [[104, 109, 101, 120], dashI, a, dashI, b];
    var init := ArgState({}, [], [[]], []);
    assert StartsWithDash(argv[3]) && !StartsWithDash(a) && !StartsWithDash(b);
    assert TakeInputs(argv, 2, [], []) == Taken([Some(a)], [], 3) by {
      assert TakeInputs(argv, 3, [Some(a)], []) == Taken([Some(a)], [], 3);
    }
    assert NoArgIndex(ft.noArg, dashI, 0) == 0 && NameIndex(ft.multi, dashI, 0) == 0;
    assert SingleScan(ft.single, argv, 2, dashI, 0, [], []) == SingleOutcome([], [], 2, false);
    assert SingleScan(ft.single, argv, 4, dashI, 0, [], []) == SingleOutcome([], [], 4, false);
    var first := ArgState({}, [], [[Some(a)]], []);
    assert argv[1] == dashI && argv[3] == dashI && Uninitialised(0) == [];
    assert Uninitialised(|init.multis[0]|) == [];
    assert TakeInputs(argv, 2, Uninitialised(|init.multis[0]|), []) == Taken([Some(a)], [], 3);
    assert Step(ft, argv, 1, init, true).0.multis == [[Some(a)]];
    assert Step(ft, argv, 1, init, true) == (first, 3);
    assert Step(ft, argv, 1, init, false) == (first, 3);
    assert TakeInputs(argv, 4, [None], []) == Taken([None, Some(b)], [], 5) by {
      assert TakeInputs(argv, 5, [None, Some(b)], []) == Taken([None, Some(b)], [], 5);
    }
    assert TakeInputs(argv, 4, [Some(a)], []) == Taken([Some(a), Some(b)], [], 5) by {
      assert TakeInputs(argv, 5, [Some(a), Some(b)], []) == Taken([Some(a), Some(b)], [], 5);
    }
    assert Uninitialised(|first.multis[0]|) == [None];
    assert [[Some(a)]][0 := [Some(a), Some(b)]] == [[Some(a), Some(b)]];
    assert [[Some(a)]][0 := [None, Some(b)]] == [[None, Some(b)]];
    assert Step(ft, argv, 3, first, true).0.multis == [[None, Some(b)]];
    assert Step(ft, argv, 3, first, true) == (ArgState({}, [], [[None, Some(b)]], []), 5);
    assert Step(ft, argv, 3, first, false) == (ArgState({}, [], [[Some(a), Some(b)]], []), 5);
    assert ArgsFrom(ft, argv, 1, init, true) == ArgState({}, [], [[None, Some(b)]], []) by {
      assert ArgsFrom(ft, argv, 3, first, true) == ArgState({}, [], [[None, Some(b)]], []);
    }
    assert ArgsFrom(ft, argv, 1, init, false) == ArgState({}, [], [[Some(a), Some(b)]], []) by {
      assert ArgsFrom(ft, argv, 3, first, false) == ArgState({}, [], [[Some(a), Some(b)]], []);
    }
  }
}
