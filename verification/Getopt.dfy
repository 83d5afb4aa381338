/** getopt_long.c: a resumable scanner that, over many calls, partitions argv into
    the options it consumed and the operands it skipped. */
module Getopt {
  import opened Wrappers

  import PermuteArgs

  datatype HasArg = NoArgument | RequiredArgument | OptionalArgument

  /** An entry of the long option table; `flag` 0 is the null pointer. */
  datatype LongOption = LongOption(name: string, hasArg: HasArg, flag: nat, val: int)

  /** The arguments of one family of calls, after getopt_internal's prologue:
      `options` has lost its leading '+' or '-', which is recorded in the switches. */
  datatype Config = Config(options: string, longOptions: Option<seq<LongOption>>,
                           permute: bool, allArgs: bool, longOnly: bool)
  {
    /** No table entry returns the value that means "no more options". */
    predicate Valid() {
      longOptions.Some? ==>
        forall i | 0 <= i < |longOptions.value| :: longOptions.value[i].flag == 0 ==> longOptions.value[i].val != -1
    }
  }

  const BADCH: int := '?' as int
  const INORDER: int := 1

  /** A missing or unwanted argument is reported as ':' (58) if the option string starts with it, else as '?' (63). */
  function BadArg(options: string): (r: int)
    ensures (r == 58 <==> [':'] <= options) && (r == 63 <==> !([':'] <= options))
  {
    if |options| > 0 && options[0] == ':' then ':' as int else BADCH
  }

  /** The prologue of getopt_internal: which mode a call works in. */
  function Configure(options: string, longOptions: Option<seq<LongOption>>,
                     permute: bool, longOnly: bool, posixlyCorrect: bool): Config
  {
    var first := if |options| > 0 then options[0] else '\0';
    Config(
      if first == '+' || first == '-' then options[1..] else options,
      longOptions,
      permute && (first == '-' || !(posixlyCorrect || first == '+')),
      first == '-',
      longOnly)
  }

  // ---- what one word takes ---------------------------------------------------

  /** The character at `i`, or the terminating NUL. */
  function At(s: string, i: nat): char {
    if i < |s| then s[i] else '\0'
  }

  /** strchr(): the first index of `c`. */
  function IndexOf(s: string, c: char): (i: nat)
    requires c in s
    ensures i < |s| && s[i] == c && c !in s[..i]
  {
    if s[0] == c then 0 else
      var i := IndexOf(s[1..], c);
      assert s[..i + 1] == [s[0]] + s[1..][..i];
      i + 1
  }

  /** The text before '='. */
  function NamePart(cur: string): string {
    if '=' in cur then cur[..IndexOf(cur, '=')] else cur
  }

  predicate IsExact(o: LongOption, name: string) {
    o.name == name
  }

  predicate IsPartial(o: LongOption, name: string, shortToo: bool) {
    name < o.name && !(shortToo && |name| == 1)
  }

  /** Two abbreviations of different meaning. */
  predicate Clash(o: LongOption, m: LongOption, longOnly: bool) {
    longOnly || o.hasArg != m.hasArg || o.flag != m.flag || o.val != m.val
  }

  datatype LongMatch = Unmatched | Ambiguous | Match(index: nat)

  /** The first exact match, or the length of the table. */
  function FirstExact(table: seq<LongOption>, name: string): (i: nat)
    ensures i <= |table|
    ensures i < |table| ==> IsExact(table[i], name)
    ensures forall j | 0 <= j < i :: !IsExact(table[j], name)
  {
    if table == [] || IsExact(table[0], name) then 0 else 1 + FirstExact(table[1..], name)
  }

  /** The first abbreviated entry, or the length of the table. */
  function FirstPartial(table: seq<LongOption>, name: string, shortToo: bool): (i: nat)
    ensures i <= |table|
    ensures i < |table| ==> IsPartial(table[i], name, shortToo)
    ensures forall j | 0 <= j < i :: !IsPartial(table[j], name, shortToo)
  {
    if table == [] || IsPartial(table[0], name, shortToo) then 0 else 1 + FirstPartial(table[1..], name, shortToo)
  }

  /** The entry a long option stands for: the first exact match if there is one,
      otherwise the first abbreviation, unless a later one clashes with it. */
  function Lookup(table: seq<LongOption>, name: string, shortToo: bool, longOnly: bool): (m: LongMatch)
    ensures m.Match? ==> m.index < |table|
  {
    var exact := FirstExact(table, name);
    var partial := FirstPartial(table, name, shortToo);
    if exact < |table| then Match(exact)
    else if partial == |table| then Unmatched
    else if exists j | partial < j < |table| ::
      IsPartial(table[j], name, shortToo) && Clash(table[j], table[partial], longOnly) then Ambiguous
    else Match(partial)
  }

  function Min(a: nat, b: nat): nat {
    if a < b then a else b
  }

  /** How many of the `following` words a long option takes as its argument. */
  function LongTakes(table: seq<LongOption>, cur: string, shortToo: bool, longOnly: bool, following: nat): (n: nat)
    ensures n <= following
  {
    match Lookup(table, NamePart(cur), shortToo, longOnly)
    case Match(i) =>
      if table[i].hasArg == RequiredArgument && '=' !in cur then Min(1, following) else 0
    case _ => 0
  }

  /** Whether the scanner tries the long options at `word[off..]`. */
  predicate TriesLong(cfg: Config, word: string, off: nat)
    requires off < |word|
  {
    cfg.longOptions.Some? && off != 0 && (word[off] == '-' || cfg.longOnly)
  }

  /** The text it tries, and whether a short option could be meant as well. */
  function LongText(word: string, off: nat): string
    requires off < |word|
  {
    if word[off] == '-' then word[off + 1..] else word[off..]
  }

  predicate ShortToo(cfg: Config, word: string, off: nat)
    requires off < |word|
  {
    word[off] != '-' && word[off] != ':' && word[off] in cfg.options
  }

  /** What one call does at an offset of a word: go on within the word, finish it and
      take some of the following words along, or get stuck at a final '-'. */
  datatype Step = Continue | Finish(words: nat) | Halt

  function StepAt(cfg: Config, word: string, off: nat, rest: seq<string>): (e: Step)
    requires off < |word|
    ensures e.Continue? ==> off + 1 < |word|
    ensures e.Finish? ==> e.words <= |rest|
  {
    if TriesLong(cfg, word, off) then
      var table, cur, shortToo := cfg.longOptions.value, LongText(word, off), ShortToo(cfg, word, off);
      if shortToo && Lookup(table, NamePart(cur), shortToo, cfg.longOnly) == Unmatched
      then ShortStep(cfg, word, off, rest)
      else Finish(LongTakes(table, cur, shortToo, cfg.longOnly, |rest|))
    else
      ShortStep(cfg, word, off, rest)
  }

  function ShortStep(cfg: Config, word: string, off: nat, rest: seq<string>): (e: Step)
    requires off < |word|
    ensures e.Continue? ==> off + 1 < |word|
    ensures e.Finish? ==> e.words <= |rest|
  {
    var c, last := word[off], off + 1 == |word|;
    if c == ':' || (c == '-' && !last) || c !in cfg.options then
      if c == '-' && last then Halt else if last then Finish(0) else Continue
    else
      var k := IndexOf(cfg.options, c);
      if cfg.longOptions.Some? && c == 'W' && At(cfg.options, k + 1) == ';' then
        var table := cfg.longOptions.value;
        if !last then Finish(LongTakes(table, word[off + 1..], false, cfg.longOnly, |rest|))
        else if rest == [] then Finish(0)
        else Finish(1 + LongTakes(table, rest[0], false, cfg.longOnly, |rest| - 1))
      else if At(cfg.options, k + 1) != ':' then
        if last then Finish(0) else Continue
      else if last && At(cfg.options, k + 2) != ':' then Finish(Min(1, |rest|))
      else Finish(0)
  }

  /** What the word comes to from `off` on: the calls it takes, run to their end. */
  function Extent(cfg: Config, word: string, off: nat, rest: seq<string>): (e: Step)
    requires off < |word|
    ensures !e.Continue?
    ensures e.Finish? ==> e.words <= |rest|
    decreases |word| - off
  {
    var e := StepAt(cfg, word, off, rest);
    if e == Continue then Extent(cfg, word, off + 1, rest) else e
  }

  // ---- what a call reports ---------------------------------------------------

  /** What a call tells its caller: its result, optarg, what it sets optopt to if anything, and
      the entry of the table, if any, that *idx and the entry's flag are set from. */
  datatype Report = Report(ret: int, arg: Option<string>, opt: Option<int>, entry: Option<nat>)

  /** The entry at `i`, with its argument: behind '=', the next word, or none. */
  function FoundReport(cfg: Config, i: nat, cur: string, rest: seq<string>): Report
    requires cfg.longOptions.Some? && i < |cfg.longOptions.value|
  {
    var o, given := cfg.longOptions.value[i], '=' in cur;
    if (o.hasArg == NoArgument && given) || (o.hasArg == RequiredArgument && !given && rest == []) then
      Report(BadArg(cfg.options), None, Some(if o.flag == 0 then o.val else 0), None)
    else
      var arg := if given then Some(cur[IndexOf(cur, '=') + 1..])
                 else if o.hasArg == RequiredArgument then Some(rest[0]) else None;
      Report(if o.flag != 0 then 0 else o.val, arg, None, Some(i))
  }

  /** A long option, or why it is none. */
  function LongReport(cfg: Config, cur: string, shortToo: bool, rest: seq<string>): Report
    requires cfg.longOptions.Some?
  {
    var found := Lookup(cfg.longOptions.value, NamePart(cur), shortToo, cfg.longOnly);
    if found.Match? then FoundReport(cfg, found.index, cur, rest)
    else if shortToo && found == Unmatched then Report(-1, None, None, None)
    else Report(BADCH, None, Some(0), None)
  }

  lemma NoLongOption(cfg: Config, cur: string, rest: seq<string>)
    requires cfg.longOptions.Some? && Lookup(cfg.longOptions.value, NamePart(cur), true, cfg.longOnly) == Unmatched
    ensures LongReport(cfg, cur, true, rest) == Report(-1, None, None, None)
  {
  }

  /** A letter, or why it is none. */
  function ShortReport(cfg: Config, word: string, off: nat, rest: seq<string>): Report
    requires off < |word|
  {
    var c, last := word[off], off + 1 == |word|;
    if c == ':' || (c == '-' && !last) || c !in cfg.options then
      if c == '-' && last then Report(-1, None, None, None) else Report(BADCH, None, Some(c as int), None)
    else
      var k, missing := IndexOf(cfg.options, c), Report(BadArg(cfg.options), None, Some(c as int), None);
      if cfg.longOptions.Some? && c == 'W' && At(cfg.options, k + 1) == ';' then
        if !last then LongReport(cfg, word[off + 1..], false, rest)
        else if rest == [] then missing
        else LongReport(cfg, rest[0], false, rest[1..])
      else if At(cfg.options, k + 1) != ':' then Report(c as int, None, None, None)
      else if !last then Report(c as int, Some(word[off + 1..]), None, None)
      else if At(cfg.options, k + 2) == ':' then Report(c as int, None, None, None)
      else if rest == [] then missing
      else Report(c as int, Some(rest[0]), None, None)
  }

  function StepReport(cfg: Config, word: string, off: nat, rest: seq<string>): Report
    requires off < |word|
  {
    if TriesLong(cfg, word, off) then
      var cur, shortToo := LongText(word, off), ShortToo(cfg, word, off);
      if shortToo && Lookup(cfg.longOptions.value, NamePart(cur), shortToo, cfg.longOnly) == Unmatched
      then ShortReport(cfg, word, off, rest) else LongReport(cfg, cur, shortToo, rest)
    else
      ShortReport(cfg, word, off, rest)
  }

  /** The results and arguments that the calls in a word report from `off` on. */
  function WordReports(cfg: Config, word: string, off: nat, rest: seq<string>): seq<(int, Option<string>)>
    requires off < |word|
    decreases |word| - off
  {
    var e, r := StepAt(cfg, word, off, rest), StepReport(cfg, word, off, rest);
    match e
    case Continue => [(r.ret, r.arg)] + WordReports(cfg, word, off + 1, rest)
    case Finish(_) => [(r.ret, r.arg)]
    case Halt => []
  }

  // ---- the partition ---------------------------------------------------------

  predicate IsOperand(cfg: Config, word: string) {
    |word| == 0 || word[0] != '-' || (|word| == 1 && '-' !in cfg.options)
  }

  /** The offset where an option word's letters start. */
  function FirstOffset(word: string): nat {
    if |word| > 1 then 1 else 0
  }

  datatype Stop = Exhausted | EndMarker | AtOperand | LoneDash

  /** The result of scanning argv: consumed words (options with their arguments, and
      the end marker) and skipped operands, both in argv order, and where and why it stopped. */
  datatype Layout = Layout(consumed: seq<string>, operands: seq<string>, tail: nat, why: Stop)

  /** The part the word at some index plays: consumed with a number of following words,
      skipped, the end marker, or the place where the scan stops. */
  datatype Role = Consumed(more: nat) | Skipped | Marker | Halting(why: Stop)

  function RoleAt(cfg: Config, argv: seq<string>, i: nat): (role: Role)
    requires i < |argv|
    ensures role.Consumed? ==> i + 1 + role.more <= |argv|
  {
    var word := argv[i];
    if IsOperand(cfg, word) then
      if cfg.allArgs then Consumed(0) else if !cfg.permute then Halting(AtOperand) else Skipped
    else if word == "--" then Marker
    else
      var e := Extent(cfg, word, FirstOffset(word), argv[i + 1..]);
      if e == Halt then Halting(LoneDash) else Consumed(e.words)
  }

  /** The partition of argv[i..], read off argv alone. */
  function Scan(cfg: Config, argv: seq<string>, i: nat): (l: Layout)
    requires i <= |argv|
    ensures i <= l.tail <= |argv|
    ensures |l.consumed| + |l.operands| == l.tail - i
    ensures l.why == Exhausted ==> l.tail == |argv|
    decreases |argv| - i
  {
    if i == |argv| then Layout([], [], i, Exhausted)
    else match RoleAt(cfg, argv, i)
      case Consumed(n) =>
        var l := Scan(cfg, argv, i + 1 + n);
        l.(consumed := argv[i..i + 1 + n] + l.consumed)
      case Skipped =>
        var l := Scan(cfg, argv, i + 1);
        l.(operands := [argv[i]] + l.operands)
      case Marker => Layout([argv[i]], [], i + 1, EndMarker)
      case Halting(why) => Layout([], [], i, why)
  }

  /** The results and arguments that a run reports from argv[i] on, read off argv alone. */
  function Reports(cfg: Config, argv: seq<string>, i: nat): seq<(int, Option<string>)>
    requires i <= |argv|
    decreases |argv| - i, 1
  {
    if i == |argv| then []
    else if IsOperand(cfg, argv[i]) then
      match RoleAt(cfg, argv, i)
      case Consumed(n) => [(INORDER, Some(argv[i]))] + Reports(cfg, argv, i + 1 + n)
      case Skipped => Reports(cfg, argv, i + 1)
      case _ => []
    else if argv[i] == "--" then []
    else ReportsFrom(cfg, argv, i, FirstOffset(argv[i]))
  }

  /** The same, from inside the option word at `i`. */
  function ReportsFrom(cfg: Config, argv: seq<string>, i: nat, off: nat): seq<(int, Option<string>)>
    requires i < |argv| && off < |argv[i]|
    decreases |argv| - i, 0
  {
    var e := Extent(cfg, argv[i], off, argv[i + 1..]);
    WordReports(cfg, argv[i], off, argv[i + 1..]) + if e.Finish? then Reports(cfg, argv, i + 1 + e.words) else []
  }

  /** The same in terms of the words after `i`. */
  lemma ReportsOver(cfg: Config, argv: seq<string>, i: nat)
    requires i < |argv|
    ensures match RoleAt(cfg, argv, i)
      case Consumed(n) =>
        Reports(cfg, argv, i) ==
          if IsOperand(cfg, argv[i]) then [(INORDER, Some(argv[i]))] + Reports(cfg, argv, i + 1 + n)
          else ReportsFrom(cfg, argv, i, FirstOffset(argv[i]))
      case Skipped => Reports(cfg, argv, i) == Reports(cfg, argv, i + 1)
      case Marker => Reports(cfg, argv, i) == []
      case Halting(why) =>
        Reports(cfg, argv, i) == if why == LoneDash then ReportsFrom(cfg, argv, i, FirstOffset(argv[i])) else []
  {
  }

  lemma ReportsOfWord(cfg: Config, argv: seq<string>, i: nat)
    requires i < |argv| && !IsOperand(cfg, argv[i]) && argv[i] != "--"
    ensures FirstOffset(argv[i]) < |argv[i]| && Reports(cfg, argv, i) == ReportsFrom(cfg, argv, i, FirstOffset(argv[i]))
  {
    hide ReportsFrom;
  }

  /** From inside a word: the report of one call, and the rest of the word or what follows it. */
  lemma ReportsInWord(cfg: Config, argv: seq<string>, i: nat, off: nat)
    requires i < |argv| && off < |argv[i]|
    ensures var rest := argv[i + 1..];
      var e, r := StepAt(cfg, argv[i], off, rest), StepReport(cfg, argv[i], off, rest);
      ReportsFrom(cfg, argv, i, off) == match e
        case Continue => [(r.ret, r.arg)] + ReportsFrom(cfg, argv, i, off + 1)
        case Finish(n) => [(r.ret, r.arg)] + Reports(cfg, argv, i + 1 + n)
        case Halt => []
  {
    hide StepAt, StepReport, Reports;
    var rest := argv[i + 1..];
    if StepAt(cfg, argv[i], off, rest) == Continue {
      var r, e := StepReport(cfg, argv[i], off, rest), Extent(cfg, argv[i], off + 1, rest);
      var after := if e.Finish? then Reports(cfg, argv, i + 1 + e.words) else [];
      assert ([(r.ret, r.arg)] + WordReports(cfg, argv[i], off + 1, rest)) + after
          == [(r.ret, r.arg)] + (WordReports(cfg, argv[i], off + 1, rest) + after);
    }
  }

  /** The scan at a consumed word and at a skipped one, in terms of the scan after it. */
  lemma ScanOver(cfg: Config, argv: seq<string>, i: nat)
    requires i < |argv|
    ensures match RoleAt(cfg, argv, i)
      case Consumed(n) =>
        var l := Scan(cfg, argv, i + 1 + n);
        Scan(cfg, argv, i) == l.(consumed := argv[i..i + 1 + n] + l.consumed)
      case Skipped =>
        var l := Scan(cfg, argv, i + 1);
        Scan(cfg, argv, i) == l.(operands := [argv[i]] + l.operands)
      case Marker => Scan(cfg, argv, i) == Layout([argv[i]], [], i + 1, EndMarker)
      case Halting(why) => Scan(cfg, argv, i) == Layout([], [], i, why)
  {
    hide RoleAt;
  }

  lemma OperandRole(cfg: Config, argv: seq<string>, i: nat)
    requires i < |argv| && IsOperand(cfg, argv[i])
    ensures RoleAt(cfg, argv, i) ==
      if cfg.allArgs then Consumed(0) else if !cfg.permute then Halting(AtOperand) else Skipped
  {
  }

  lemma ScanEnd(cfg: Config, argv: seq<string>)
    ensures Scan(cfg, argv, |argv|) == Layout([], [], |argv|, Exhausted)
  {
  }

  // ---- matching long options -------------------------------------------------

  lemma LookupFound(table: seq<LongOption>, name: string, shortToo: bool, longOnly: bool,
                    matched: int, exact: bool, second: bool)
    requires if exact then
        && 0 <= matched < |table| && IsExact(table[matched], name)
        && forall j | 0 <= j < matched :: !IsExact(table[j], name)
      else
        && (forall j | 0 <= j < |table| :: !IsExact(table[j], name))
        && if matched == -1 then forall j | 0 <= j < |table| :: !IsPartial(table[j], name, shortToo)
           else
             && 0 <= matched < |table| && IsPartial(table[matched], name, shortToo)
             && (forall j | 0 <= j < matched :: !IsPartial(table[j], name, shortToo))
             && (second <==> exists j | matched < j < |table| ::
                   IsPartial(table[j], name, shortToo) && Clash(table[j], table[matched], longOnly))
    ensures Lookup(table, name, shortToo, longOnly)
         == if exact then Match(matched) else if matched == -1 then Unmatched
            else if second then Ambiguous else Match(matched)
  {
  }

  /** The matching loop of parse_long_options(). */
  method FindLong(table: seq<LongOption>, name: string, shortToo: bool, longOnly: bool)
    returns (matched: int, exactMatch: bool, secondPartial: bool)
    ensures -1 <= matched < |table| && (exactMatch || secondPartial ==> matched != -1)
    ensures Lookup(table, name, shortToo, longOnly)
         == if matched == -1 then Unmatched
            else if !exactMatch && secondPartial then Ambiguous else Match(matched)
  {
    matched, exactMatch, secondPartial := -1, false, false;
    var i := 0;
    while i < |table| && !exactMatch
      invariant 0 <= i <= |table|
      invariant exactMatch ==> i < |table| && matched == i && IsExact(table[i], name)
      invariant forall j | 0 <= j < i :: !IsExact(table[j], name)
      invariant !exactMatch && matched == -1 ==>
        !secondPartial && forall j | 0 <= j < i :: !IsPartial(table[j], name, shortToo)
      invariant !exactMatch && matched != -1 ==>
        && 0 <= matched < i && IsPartial(table[matched], name, shortToo)
        && (forall j | 0 <= j < matched :: !IsPartial(table[j], name, shortToo))
        && (secondPartial <==> exists j | matched < j < i ::
              IsPartial(table[j], name, shortToo) && Clash(table[j], table[matched], longOnly))
      decreases |table| - i, !exactMatch
    {
      if !(name <= table[i].name) {
        i := i + 1;
      } else if |table[i].name| == |name| {
        matched := i;
        exactMatch := true;
      } else {
        if shortToo && |name| == 1 {
        } else if matched == -1 {
          matched := i;
        } else if Clash(table[i], table[matched], longOnly) {
          secondPartial := true;
        }
        i := i + 1;
      }
    }
    LookupFound(table, name, shortToo, longOnly, matched, exactMatch, secondPartial);
  }

  // ---- how far a run has come ------------------------------------------------

  /** What a run leaves alone before its start. */
  function Lead(original: seq<string>, start: nat): seq<string> {
    if start <= |original| then original[..start] else original
  }

  /** The words before `pos` are in order: consumed words with at most one block of
      operands among them, and what follows is untouched. `inWord` says that the word at
      `pos` is being scanned. */
  ghost predicate Arranged(argv: seq<string>, original: seq<string>, start: nat, nonoptStart: int, nonoptEnd: int,
                           consumed: seq<string>, operands: seq<string>, pos: nat, inWord: bool)
  {
    && start <= pos <= |argv| == |original|
    && argv[pos..] == original[pos..]
    && (if nonoptStart == -1 then
          && nonoptEnd == -1 && operands == []
          && argv[..pos] == Lead(original, start) + consumed
        else if nonoptEnd == -1 then
          && start <= nonoptStart < pos && !inWord
          && argv[..nonoptStart] == Lead(original, start) + consumed && argv[nonoptStart..pos] == operands
        else
          && start <= nonoptStart < nonoptEnd <= pos && (inWord || nonoptEnd < pos)
          && argv[..nonoptStart] + argv[nonoptEnd..pos] == Lead(original, start) + consumed
          && argv[nonoptStart..nonoptEnd] == operands)
  }

  /** What has been scanned, followed by what is left to scan, is the whole scan. */
  ghost predicate OnTrack(whole: Layout, left: Layout, consumed: seq<string>, operands: seq<string>) {
    whole == Layout(consumed + left.consumed, operands + left.operands, left.tail, left.why)
  }

  /** argv and optind are what a finished scan promises. */
  ghost predicate Partitioned(whole: Layout, argv: seq<string>, original: seq<string>, start: nat, optind: nat) {
    && start <= |original| && whole.tail <= |original|
    && argv == original[..start] + whole.consumed + whole.operands + original[whole.tail..]
    && optind == start + |whole.consumed|
  }

  lemma TailShift<T>(s: seq<T>, t: seq<T>, pos: nat, next: nat)
    requires pos <= next <= |s| == |t| && s[pos..] == t[pos..]
    ensures s[next..] == t[next..] && s[pos..next] == t[pos..next]
  {
    assert s[next..] == s[pos..][next - pos..];
    assert t[next..] == t[pos..][next - pos..];
    assert s[pos..next] == s[pos..][..next - pos];
    assert t[pos..next] == t[pos..][..next - pos];
  }

  lemma ArrangedTaken(argv: seq<string>, original: seq<string>, start: nat, nonoptStart: int, nonoptEnd: int,
                      consumed: seq<string>, operands: seq<string>, pos: nat, next: nat)
    requires Arranged(argv, original, start, nonoptStart, nonoptEnd, consumed, operands, pos, true)
    requires pos < next <= |original|
    ensures Arranged(argv, original, start, nonoptStart, nonoptEnd, consumed + original[pos..next], operands,
                     next, false)
  {
    var taken := original[pos..next];
    TailShift(argv, original, pos, next);
    assert Lead(original, start) + (consumed + taken) == (Lead(original, start) + consumed) + taken;
    if nonoptStart == -1 {
      assert argv[..next] == argv[..pos] + taken;
    } else {
      assert argv[..nonoptStart] + argv[nonoptEnd..next] == (argv[..nonoptStart] + argv[nonoptEnd..pos]) + taken;
    }
  }

  lemma OnTrackTaken(whole: Layout, left: Layout, next: Layout, consumed: seq<string>, operands: seq<string>,
                     taken: seq<string>)
    requires OnTrack(whole, left, consumed, operands)
    requires left == next.(consumed := taken + next.consumed)
    ensures OnTrack(whole, next, consumed + taken, operands)
  {
    assert consumed + (taken + next.consumed) == (consumed + taken) + next.consumed;
  }

  lemma OnTrackSkipped(whole: Layout, left: Layout, next: Layout, consumed: seq<string>, operands: seq<string>,
                       word: string)
    requires OnTrack(whole, left, consumed, operands)
    requires left == next.(operands := [word] + next.operands)
    ensures OnTrack(whole, next, consumed, operands + [word])
  {
    assert operands + ([word] + next.operands) == (operands + [word]) + next.operands;
  }

  /** Before a block of operands can grow, it is brought behind the words consumed after it. */
  lemma BlockMoved(argv: seq<string>, moved: seq<string>, original: seq<string>, start: nat, nonoptStart: nat,
                   nonoptEnd: nat, consumed: seq<string>, operands: seq<string>, pos: nat)
    requires Arranged(argv, original, start, nonoptStart, nonoptEnd, consumed, operands, pos, false)
    requires moved == PermuteArgs.Exchanged(argv, nonoptStart, nonoptEnd, pos)
    ensures var at := pos - (nonoptEnd - nonoptStart);
      Arranged(moved, original, start, at, -1, consumed, operands, pos, false)
  {
    var at := pos - (nonoptEnd - nonoptStart);
    assert moved[..at] == argv[..nonoptStart] + argv[nonoptEnd..pos];
    assert moved[at..pos] == argv[nonoptStart..nonoptEnd];
    assert moved[pos..] == argv[pos..];
  }

  lemma BlockBounds(argv: seq<string>, original: seq<string>, start: nat, nonoptStart: int, nonoptEnd: int,
                    consumed: seq<string>, operands: seq<string>, pos: nat, inWord: bool)
    requires Arranged(argv, original, start, nonoptStart, nonoptEnd, consumed, operands, pos, inWord)
    ensures start <= pos <= |argv| == |original|
    ensures || nonoptStart == nonoptEnd == -1
            || (start <= nonoptStart < nonoptEnd <= pos && (inWord || nonoptEnd < pos))
            || (start <= nonoptStart < pos && nonoptEnd == -1 && !inWord)
  {
  }

  /** An operand has been skipped. */
  lemma ArrangedSkipped(argv: seq<string>, original: seq<string>, start: nat, nonoptStart: int,
                        consumed: seq<string>, operands: seq<string>, pos: nat)
    requires Arranged(argv, original, start, nonoptStart, -1, consumed, operands, pos, false)
    requires pos < |original|
    ensures Arranged(argv, original, start, if nonoptStart == -1 then pos else nonoptStart, -1,
                     consumed, operands + [original[pos]], pos + 1, false)
  {
    TailShift(argv, original, pos, pos + 1);
    var from := if nonoptStart == -1 then pos else nonoptStart;
    assert argv[from..pos + 1] == argv[from..pos] + [original[pos]];
  }

  /** The three ways in which an operand joins the block: as its first, behind it, and
      behind it once it has been moved up. */
  lemma OperandSkipped(argv: seq<string>, moved: seq<string>, original: seq<string>, start: nat,
                       nonoptStart: int, nonoptEnd: int, consumed: seq<string>, operands: seq<string>, pos: nat)
    requires Arranged(argv, original, start, nonoptStart, nonoptEnd, consumed, operands, pos, false)
    requires pos < |original|
    requires if nonoptEnd == -1 then moved == argv
      else
        && 0 <= nonoptStart <= nonoptEnd <= pos <= |argv|
        && moved == PermuteArgs.Exchanged(argv, nonoptStart, nonoptEnd, pos)
    ensures var first :=
        if nonoptStart == -1 then pos
        else if nonoptEnd == -1 then nonoptStart else pos - (nonoptEnd - nonoptStart);
      Arranged(moved, original, start, first, -1, consumed, operands + [original[pos]], pos + 1, false)
  {
    hide Arranged, PermuteArgs.Exchanged;
    BlockBounds(argv, original, start, nonoptStart, nonoptEnd, consumed, operands, pos, false);
    if nonoptEnd == -1 {
      ArrangedSkipped(argv, original, start, nonoptStart, consumed, operands, pos);
    } else {
      BlockMoved(argv, moved, original, start, nonoptStart, nonoptEnd, consumed, operands, pos);
      ArrangedSkipped(moved, original, start, pos - (nonoptEnd - nonoptStart), consumed, operands, pos);
    }
  }

  /** At the end of a scan, moving the block of operands back completes the partition. */
  lemma PartitionDone(whole: Layout, left: Layout, argv: seq<string>, original: seq<string>, start: nat,
                      nonoptStart: int, nonoptEnd: int, consumed: seq<string>, operands: seq<string>, pos: nat)
    requires Arranged(argv, original, start, nonoptStart, nonoptEnd, consumed, operands, pos, false)
    requires OnTrack(whole, left, consumed, operands) && left == Layout([], [], pos, left.why)
    ensures if nonoptEnd != -1 then
        Partitioned(whole, PermuteArgs.Exchanged(argv, nonoptStart, nonoptEnd, pos), original, start,
                    pos - (nonoptEnd - nonoptStart))
      else
        Partitioned(whole, argv, original, start, if nonoptStart != -1 then nonoptStart else pos)
    ensures whole.why == left.why
  {
    assert argv == argv[..pos] + argv[pos..];
    if nonoptEnd != -1 {
      var moved := PermuteArgs.Exchanged(argv, nonoptStart, nonoptEnd, pos);
      assert moved == (argv[..nonoptStart] + argv[nonoptEnd..pos]) + argv[nonoptStart..nonoptEnd] + argv[pos..];
    } else if nonoptStart != -1 {
      assert argv[..pos] == argv[..nonoptStart] + argv[nonoptStart..pos];
    }
  }

  /** At "--", moving the block of operands behind the marker completes the partition. */
  lemma MarkerDone(whole: Layout, argv: seq<string>, original: seq<string>, start: nat, nonoptStart: int,
                   nonoptEnd: int, consumed: seq<string>, operands: seq<string>, pos: nat)
    requires Arranged(argv, original, start, nonoptStart, nonoptEnd, consumed, operands, pos, true)
    requires pos < |original|
    requires OnTrack(whole, Layout([original[pos]], [], pos + 1, EndMarker), consumed, operands)
    ensures if nonoptEnd != -1 then
        Partitioned(whole, PermuteArgs.Exchanged(argv, nonoptStart, nonoptEnd, pos + 1), original, start,
                    pos + 1 - (nonoptEnd - nonoptStart))
      else
        Partitioned(whole, argv, original, start, pos + 1)
    ensures whole.why == EndMarker
  {
    hide Partitioned, Arranged;
    var next := Layout([], [], pos + 1, EndMarker);
    assert original[pos..pos + 1] == [original[pos]];
    ArrangedTaken(argv, original, start, nonoptStart, nonoptEnd, consumed, operands, pos, pos + 1);
    PartitionDone(whole, next, argv, original, start, nonoptStart, nonoptEnd, consumed + [original[pos]], operands,
                  pos + 1);
    BlockBounds(argv, original, start, nonoptStart, nonoptEnd, consumed, operands, pos, true);
  }

  lemma ArrangedTail(argv: seq<string>, original: seq<string>, start: nat, nonoptStart: int, nonoptEnd: int,
                     consumed: seq<string>, operands: seq<string>, pos: nat, inWord: bool)
    requires Arranged(argv, original, start, nonoptStart, nonoptEnd, consumed, operands, pos, inWord)
    requires pos < |original|
    ensures argv[pos] == original[pos] && argv[pos + 1..] == original[pos + 1..]
  {
    TailShift(argv, original, pos, pos + 1);
    assert argv[pos..pos + 1] == [argv[pos]] && original[pos..pos + 1] == [original[pos]];
  }

  lemma OptionWord(cfg: Config, word: string)
    requires !IsOperand(cfg, word)
    ensures |word| >= 1 && word[0] == '-' && (|word| == 1 ==> '-' in cfg.options)
    ensures |word| == 2 && word[1] == '-' ==> word == "--"
  {
  }

  lemma MarkerRole(cfg: Config, argv: seq<string>, i: nat)
    requires i < |argv| && argv[i] == "--"
    ensures RoleAt(cfg, argv, i) == Marker
  {
  }

  /** A run that has scanned nothing yet. */
  lemma NothingScanned(whole: Layout, original: seq<string>, start: nat)
    requires start <= |original|
    ensures Arranged(original, original, start, -1, -1, [], [], start, false)
    ensures OnTrack(whole, whole, [], [])
  {
    assert [] + whole.consumed == whole.consumed && [] + whole.operands == whole.operands;
  }

  /** At a lone '-' the block of operands stays where it is, so argv and optind are
      partitioned only when there is none. */
  lemma StoppedAtDash(whole: Layout, argv: seq<string>, original: seq<string>, start: nat, nonoptStart: int,
                      nonoptEnd: int, consumed: seq<string>, operands: seq<string>, pos: nat)
    requires Arranged(argv, original, start, nonoptStart, nonoptEnd, consumed, operands, pos, true)
    requires OnTrack(whole, Layout([], [], pos, LoneDash), consumed, operands)
    ensures whole == Layout(consumed, operands, pos, LoneDash)
    ensures Partitioned(whole, argv, original, start, pos) <==> operands == []
  {
    if operands == [] {
      assert argv == argv[..pos] + argv[pos..];
      assert argv == original[..start] + consumed + operands + original[pos..];
    }
  }

  // ---- the scanner -----------------------------------------------------------

  /** The static state of getopt_internal, for one family of calls over one argv. */
  class Scanner {
    const nargv: array<string>
    const cfg: Config
    var optind: nat
    var optreset: bool
    var optarg: Option<string>
    var optopt: int
    var longIdx: Option<nat>    // *idx
    var stores: map<nat, int>   // what the flags of the table point to
    // the scanning pointer: a word and an offset in it; *place is NUL at its end
    var placeWord: string
    var placeOff: nat
    var nonoptStart: int
    var nonoptEnd: int

    // the argv a run started from and the place where it started, and the words it
    // has consumed and skipped since
    ghost const original: seq<string>
    ghost const start: nat
    ghost var consumed: seq<string>
    ghost var operands: seq<string>
    ghost var said: seq<(int, Option<string>)>  // what the calls of the run have reported

    /** Nothing has been scanned yet, or the caller has asked to start over. */
    ghost predicate Fresh()
      reads this, nargv
    {
      start == (if optind == 0 then 1 else optind) && nargv[..] == original && consumed == operands == [] && said == []
    }

    /** The run has come to `pos`; `inWord` says that it is scanning the word there. */
    ghost predicate Reached(pos: nat, inWord: bool)
      reads this, nargv
    {
      && Arranged(nargv[..], original, start, nonoptStart, nonoptEnd, consumed, operands, pos, inWord)
      && OnTrack(Scan(cfg, original, start), Scan(cfg, original, pos), consumed, operands)
      && (cfg.allArgs || !cfg.permute ==> nonoptStart == -1)
    }

    /** What has been reported, followed by what is left to report, is what the whole run reports. */
    ghost predicate Heard(left: seq<(int, Option<string>)>)
      reads this`said
    {
      start <= |original| && said + left == Reports(cfg, original, start)
    }

    lemma HeardAll()
      ensures Heard([]) ==> said == Reports(cfg, original, start)
      ensures said == [] && start <= |original| ==> Heard(Reports(cfg, original, start))
    {
      assert said + [] == said;
    }

    lemma HeardNext(r: (int, Option<string>), left: seq<(int, Option<string>)>)
      requires Heard([r] + left)
      ensures (said + [r]) + left == Reports(cfg, original, start)
    {
      assert (said + [r]) + left == said + ([r] + left);
    }

    /** A call has reported `r`, with the stores it makes. */
    twostate predicate Told(r: Report, ret: int)
      reads this
    {
      && ret == r.ret && optarg == r.arg
      && optopt == (if r.opt.Some? then r.opt.value else old(optopt))
      && longIdx == (if r.entry.Some? then r.entry else old(longIdx))
      && stores ==
          (if r.entry.Some? && cfg.longOptions.Some? && r.entry.value < |cfg.longOptions.value| then
             var o := cfg.longOptions.value[r.entry.value];
             if o.flag != 0 then old(stores)[o.flag := o.val] else old(stores)
           else old(stores))
    }

    constructor (nargv: array<string>, cfg: Config)
      requires cfg.Valid() && nargv.Length >= 1
      ensures Valid() && this.nargv == nargv && this.cfg == cfg
      ensures original == nargv[..] && start == optind == 1 && said == []
    {
      this.nargv := nargv;
      this.cfg := cfg;
      optind, optreset, optarg, optopt := 1, false, None, '?' as int;
      longIdx, stores, said := None, map[], [];
      placeWord, placeOff := "", 0;
      nonoptStart, nonoptEnd := -1, -1;
      original, start := nargv[..], 1;
      consumed, operands := [], [];
    }

    /** parse_long_options(): looks up `cur` and steps over its word and its argument. */
    method ParseLong(cur: string, shortToo: bool) returns (ret: int)
      requires cfg.Valid() && cfg.longOptions.Some? && optind < nargv.Length && optarg == None
      modifies this`optind, this`optarg, this`optopt, this`longIdx, this`stores
      ensures var table := cfg.longOptions.value;
        var following := nargv.Length - old(optind) - 1;
        && (ret == -1 <==> shortToo && Lookup(table, NamePart(cur), shortToo, cfg.longOnly) == Unmatched)
        && optind == old(optind) +
             if ret == -1 then 0 else 1 + LongTakes(table, cur, shortToo, cfg.longOnly, following)
      ensures Told(LongReport(cfg, cur, shortToo, nargv[old(optind) + 1..]), ret)
    {
      hide Lookup, BadArg, FoundReport;
      var table := cfg.longOptions.value;
      optind := optind + 1;
      var matched, exactMatch, secondPartial := FindLong(table, NamePart(cur), shortToo, cfg.longOnly);
      if !exactMatch && secondPartial {
        optopt := 0;
        return BADCH;
      }
      if matched != -1 {
        ret := TakeLong(cur, matched);
      } else {
        if shortToo {
          optind := optind - 1;
          return -1;
        }
        optopt := 0;
        return BADCH;
      }
    }

    /** Lines 220-265 and 276-283: the long option at `matched` has been found. */
    method TakeLong(cur: string, matched: nat) returns (ret: int)
      requires cfg.Valid() && cfg.longOptions.Some? && matched < |cfg.longOptions.value|
      requires optind <= nargv.Length && optarg == None
      modifies this`optind, this`optarg, this`optopt, this`longIdx, this`stores
      ensures ret != -1 && Told(FoundReport(cfg, matched, cur, nargv[old(optind)..]), ret)
      ensures var needs := cfg.longOptions.value[matched].hasArg == RequiredArgument && '=' !in cur;
        optind == old(optind) + if needs then Min(1, nargv.Length - old(optind)) else 0
    {
      hide BadArg;
      var o, hasEqual := cfg.longOptions.value[matched], '=' in cur;
      if o.hasArg == NoArgument && hasEqual {
        optopt := if o.flag == 0 then o.val else 0;
        return BadArg(cfg.options);
      }
      if o.hasArg == RequiredArgument || o.hasArg == OptionalArgument {
        if hasEqual {
          optarg := Some(cur[IndexOf(cur, '=') + 1..]);
        } else if o.hasArg == RequiredArgument {
          // nargv[nargc] is the null pointer
          optarg := if optind < nargv.Length then Some(nargv[optind]) else None;
          optind := optind + 1;
        }
      }
      if o.hasArg == RequiredArgument && optarg == None {
        optopt := if o.flag == 0 then o.val else 0;
        optind := optind - 1;
        return BadArg(cfg.options);
      }
      longIdx := Some(matched);
      if o.flag != 0 {
        stores := stores[o.flag := o.val];
        return 0;
      }
      return o.val;
    }

    /** The scanner has done step `e` at `off` of the word `word` at index `at`. */
    ghost predicate Did(e: Step, at: nat, word: string, off: nat)
      reads this
    {
      match e
      case Continue => optind == at && placeWord == word && placeOff == off + 1
      case Finish(n) => optind == at + 1 + n && placeOff == |placeWord|
      case Halt => optind == at
    }

    /** Lines 399-477 of getopt_internal: `place` points into the word at `optind`. */
    method ScanWord(ghost rest: seq<string>) returns (ret: int)
      requires cfg.Valid() && optarg == None && optind < nargv.Length && placeOff < |placeWord|
      requires placeWord[placeOff] == '-' && placeOff == 0 ==> '-' in cfg.options
      requires rest == nargv[optind + 1..]
      modifies this`optind, this`optarg, this`optopt, this`longIdx, this`stores, this`placeWord, this`placeOff
      ensures Told(StepReport(cfg, old(placeWord), old(placeOff), rest), ret)
      ensures var e := StepAt(cfg, old(placeWord), old(placeOff), rest);
        && Did(e, old(optind), old(placeWord), old(placeOff))
        && (ret == -1 <==> e == Halt)
        && (e == Halt ==> cfg.longOptions == None)
    {
      if cfg.longOptions.Some? && placeOff != 0 && (placeWord[placeOff] == '-' || cfg.longOnly) {
        ret := TryLong();
        if ret != -1 {
          return;
        }
      }
      ret := ScanLetter(rest);
    }

    /** Lines 407-418: the rest of the word as a long option. */
    method TryLong() returns (ret: int)
      requires cfg.Valid() && optarg == None && optind < nargv.Length && placeOff < |placeWord|
      requires TriesLong(cfg, placeWord, placeOff)
      modifies this`optind, this`optarg, this`optopt, this`longIdx, this`stores, this`placeWord, this`placeOff
      ensures var cur := LongText(old(placeWord), old(placeOff));
        var shortToo := ShortToo(cfg, old(placeWord), old(placeOff));
        var table := cfg.longOptions.value;
        if shortToo && Lookup(table, NamePart(cur), shortToo, cfg.longOnly) == Unmatched then
          && ret == -1 && optind == old(optind) && placeWord == old(placeWord) && placeOff == old(placeOff)
          && optarg == None && optopt == old(optopt) && longIdx == old(longIdx) && stores == old(stores)
        else
          && ret != -1 && placeOff == |placeWord| && Told(LongReport(cfg, cur, shortToo, nargv[old(optind) + 1..]), ret)
          && optind == old(optind) + 1 + LongTakes(table, cur, shortToo, cfg.longOnly, nargv.Length - old(optind) - 1)
    {
      hide LongTakes, LongReport, Lookup, BadArg;
      var shortToo := false;
      if placeWord[placeOff] == '-' {
        placeOff := placeOff + 1;
      } else if placeWord[placeOff] != ':' && placeWord[placeOff] in cfg.options {
        shortToo := true;
      }
      ret := ParseLong(placeWord[placeOff..], shortToo);
      if ret != -1 {
        placeWord, placeOff := "", 0;
      } else {
        NoLongOption(cfg, LongText(old(placeWord), old(placeOff)), nargv[old(optind) + 1..]);
      }
    }

    /** Lines 438-454: -W takes a long option, from the rest of the word or as the next one. */
    method ScanW(optchar: char, ghost rest: seq<string>) returns (ret: int)
      requires cfg.Valid() && cfg.longOptions.Some? && optarg == None && optind < nargv.Length
      requires placeOff <= |placeWord|
      requires rest == nargv[optind + 1..]
      modifies this`optind, this`optarg, this`optopt, this`longIdx, this`stores, this`placeWord, this`placeOff
      ensures ret != -1 && placeOff == |placeWord|
      ensures var word := old(placeWord)[old(placeOff)..];
        var missing := Report(BadArg(cfg.options), None, Some(optchar as int), None);
        Told(if word != [] then LongReport(cfg, word, false, rest)
             else if rest == [] then missing else LongReport(cfg, rest[0], false, rest[1..]), ret)
      ensures var table, word := cfg.longOptions.value, old(placeWord)[old(placeOff)..];
        optind == old(optind) + 1 +
          if word != [] then LongTakes(table, word, false, cfg.longOnly, |rest|)
          else if rest == [] then 0
          else 1 + LongTakes(table, rest[0], false, cfg.longOnly, |rest| - 1)
    {
      hide LongTakes, LongReport, Lookup;
      var cur := placeWord[placeOff..];
      if placeOff == |placeWord| {
        optind := optind + 1;
        if optind >= nargv.Length {
          placeWord, placeOff := "", 0;
          optopt := optchar as int;
          return BadArg(cfg.options);
        }
        cur := nargv[optind];
      }
      ret := ParseLong(cur, false);
      placeWord, placeOff := "", 0;
    }

    /** Lines 455-476: the argument of a letter, if it takes one. */
    method ScanArgument(optchar: char, oli: nat, ghost rest: seq<string>) returns (ret: int)
      requires optind < nargv.Length && placeOff <= |placeWord| && rest == nargv[optind + 1..] && optarg == None
      modifies this`optind, this`optarg, this`optopt, this`longIdx, this`stores, this`placeWord, this`placeOff
      ensures ret != -1
      ensures var word := old(placeWord)[old(placeOff)..];
        var missing := Report(BadArg(cfg.options), None, Some(optchar as int), None);
        Told(if At(cfg.options, oli + 1) != ':' then Report(optchar as int, None, None, None)
             else if word != [] then Report(optchar as int, Some(word), None, None)
             else if At(cfg.options, oli + 2) == ':' then Report(optchar as int, None, None, None)
             else if rest == [] then missing else Report(optchar as int, Some(rest[0]), None, None), ret)
      ensures var last := old(placeOff) == |old(placeWord)|;
        if At(cfg.options, oli + 1) != ':' then
          placeWord == old(placeWord) && placeOff == old(placeOff) && optind == old(optind) + if last then 1 else 0
        else
          && placeOff == |placeWord|
          && optind == old(optind) + 1 + if last && At(cfg.options, oli + 2) != ':' then Min(1, |rest|) else 0
    {
      if At(cfg.options, oli + 1) != ':' {
        if placeOff == |placeWord| {
          optind := optind + 1;
        }
      } else {
        optarg := None;
        if placeOff < |placeWord| {
          optarg := Some(placeWord[placeOff..]);
        } else if At(cfg.options, oli + 2) != ':' {
          optind := optind + 1;
          if optind >= nargv.Length {
            placeWord, placeOff := "", 0;
            optopt := optchar as int;
            return BadArg(cfg.options);
          }
          optarg := Some(nargv[optind]);
        }
        placeWord, placeOff := "", 0;
        optind := optind + 1;
      }
      return optchar as int;
    }

    /** Lines 421-477: one letter of a cluster of short options. */
    method ScanLetter(ghost rest: seq<string>) returns (ret: int)
      requires cfg.Valid() && optarg == None && optind < nargv.Length && placeOff < |placeWord|
      requires placeWord[placeOff] == '-' && cfg.longOptions.Some? ==> '-' in cfg.options
      requires rest == nargv[optind + 1..]
      modifies this`optind, this`optarg, this`optopt, this`longIdx, this`stores, this`placeWord, this`placeOff
      ensures Told(ShortReport(cfg, old(placeWord), old(placeOff), rest), ret)
      ensures var e := ShortStep(cfg, old(placeWord), old(placeOff), rest);
        && Did(e, old(optind), old(placeWord), old(placeOff))
        && (ret == -1 <==> e == Halt)
        && (e == Halt ==> cfg.longOptions == None)
    {
      hide LongTakes, LongReport, Lookup, BadArg;
      var optchar := placeWord[placeOff];
      placeOff := placeOff + 1;
      if optchar == ':' || (optchar == '-' && placeOff < |placeWord|) || optchar !in cfg.options {
        if optchar == '-' && placeOff == |placeWord| {
          return -1;
        }
        if placeOff == |placeWord| {
          optind := optind + 1;
        }
        optopt := optchar as int;
        return BADCH;
      }
      var oli := IndexOf(cfg.options, optchar);
      if cfg.longOptions.Some? && optchar == 'W' && At(cfg.options, oli + 1) == ';' {
        ret := ScanW(optchar, rest);
      } else {
        ret := ScanArgument(optchar, oli, rest);
      }
    }

    /** Records the words from `at` up to `optind` as consumed. */
    ghost method Take(at: nat)
      requires |original| == nargv.Length && start >= 1
      requires Arranged(nargv[..], original, start, nonoptStart, nonoptEnd, consumed, operands, at, true)
      requires OnTrack(Scan(cfg, original, start), Scan(cfg, original, at), consumed, operands)
      requires cfg.allArgs || !cfg.permute ==> nonoptStart == -1
      requires at < optind <= |original| && RoleAt(cfg, original, at) == Consumed(optind - at - 1)
      modifies this`consumed
      ensures Reached(optind, false)
    {
      hide Scan, RoleAt, Arranged;
      ScanOver(cfg, original, at);
      ArrangedTaken(nargv[..], original, start, nonoptStart, nonoptEnd, consumed, operands, at, optind);
      OnTrackTaken(Scan(cfg, original, start), Scan(cfg, original, at), Scan(cfg, original, optind),
                   consumed, operands, original[at..optind]);
      consumed := consumed + original[at..optind];
    }

    /** The state in which the scanning loop looks at the word at `optind`. */
    ghost predicate Looking()
      reads this, nargv
    {
      && cfg.Valid() && |original| == nargv.Length && 1 <= start <= |original| && optind >= 1
      && Reached(optind, false) && Heard(Reports(cfg, original, optind))
    }

    /** Lines 326-343: the end of argv. */
    method AtEnd()
      requires Looking() && optind == nargv.Length
      modifies this`optind, this`placeWord, this`placeOff, this`nonoptStart, this`nonoptEnd, nargv
      ensures Partitioned(Scan(cfg, original, start), nargv[..], original, start, optind)
      ensures Scan(cfg, original, start).why == Exhausted && said == Reports(cfg, original, start)
    {
      HeardAll();
      hide Scan, Partitioned, OnTrack, PermuteArgs.Exchanged;
      ScanEnd(cfg, original);
      PartitionDone(Scan(cfg, original, start), Scan(cfg, original, optind), nargv[..], original, start,
                    nonoptStart, nonoptEnd, consumed, operands, optind);
      placeWord, placeOff := "", 0;
      if nonoptEnd != -1 {
        PermuteArgs.Permute(nonoptStart, nonoptEnd, optind, nargv);
        optind := optind - (nonoptEnd - nonoptStart);
      } else if nonoptStart != -1 {
        optind := nonoptStart;
      }
      nonoptStart, nonoptEnd := -1, -1;
    }

    /** Lines 362-372: an operand is skipped; a finished block of operands is first moved up to it. */
    method SkipOperand()
      requires Looking() && optind < nargv.Length && RoleAt(cfg, original, optind) == Skipped
      requires cfg.permute && !cfg.allArgs
      modifies this`optind, this`nonoptStart, this`nonoptEnd, this`operands, nargv
      ensures Looking() && optind == old(optind) + 1
    {
      hide Scan, Reports, RoleAt, OnTrack, Arranged, PermuteArgs.Exchanged;
      ghost var before, pos := nargv[..], optind;
      BlockBounds(before, original, start, nonoptStart, nonoptEnd, consumed, operands, pos, false);
      if nonoptStart == -1 {
        nonoptStart := optind;
      } else if nonoptEnd != -1 {
        PermuteArgs.Permute(nonoptStart, nonoptEnd, optind, nargv);
        nonoptStart := optind - (nonoptEnd - nonoptStart);
        nonoptEnd := -1;
      }
      OperandSkipped(before, nargv[..], original, start, old(nonoptStart), old(nonoptEnd), consumed, operands, pos);
      ScanOver(cfg, original, pos);
      ReportsOver(cfg, original, pos);
      OnTrackSkipped(Scan(cfg, original, start), Scan(cfg, original, pos), Scan(cfg, original, pos + 1),
                     consumed, operands, original[pos]);
      operands := operands + [original[pos]];
      optind := optind + 1;
    }

    /** Lines 347-354: an operand is an option of its own. */
    method InOrder() returns (ret: int)
      requires Looking() && optind < nargv.Length && IsOperand(cfg, original[optind]) && cfg.allArgs
      requires nargv[optind] == original[optind] && placeOff == |placeWord|
      modifies this`optind, this`optarg, this`consumed, this`said
      ensures ret == INORDER && Looking() && optind == old(optind) + 1 && said == old(said) + [(ret, optarg)]
    {
      hide Scan, Reports, RoleAt, OnTrack, IsOperand;
      OperandRole(cfg, original, optind);
      ReportsOver(cfg, original, optind);
      ghost var left := Reports(cfg, original, optind + 1);
      assert said + ([(INORDER, Some(nargv[optind]))] + left) == said + [(INORDER, Some(nargv[optind]))] + left;
      said := said + [(INORDER, Some(nargv[optind]))];
      optarg := Some(nargv[optind]);
      optind := optind + 1;
      Take(optind - 1);
      return INORDER;
    }

    /** Lines 355-361: an operand ends the options. */
    ghost method StopAtOperand()
      requires Looking() && optind < nargv.Length && IsOperand(cfg, original[optind]) && !cfg.allArgs && !cfg.permute
      ensures Partitioned(Scan(cfg, original, start), nargv[..], original, start, optind)
      ensures Scan(cfg, original, start).why == AtOperand && said == Reports(cfg, original, start)
    {
      HeardAll();
      ReportsOver(cfg, original, optind);
      hide Reports;
      hide Scan, RoleAt, OnTrack, Partitioned, PermuteArgs.Exchanged, IsOperand;
      OperandRole(cfg, original, optind);
      ScanOver(cfg, original, optind);
      PartitionDone(Scan(cfg, original, start), Scan(cfg, original, optind), nargv[..], original, start,
                    nonoptStart, nonoptEnd, consumed, operands, optind);
    }

    /** The loop at `start:`: skips operands until there is an option word, which it leaves
        in `place`, or a reason to return. */
    method NextOption() returns (ret: Option<int>)
      requires Looking() && optarg == None
      modifies this, nargv
      ensures !optreset
      ensures ret == None ==>
        && optind >= old(optind) && Looking() && optind < nargv.Length && optarg == None
        && placeWord == original[optind] && placeOff == 0 && !IsOperand(cfg, placeWord) && said == old(said)
      ensures ret.Some? && ret.value != -1 ==>
        Looking() && optind > old(optind) && placeOff == |placeWord| && said == old(said) + [(ret.value, optarg)]
      ensures ret == Some(-1) ==>
        && Partitioned(Scan(cfg, original, start), nargv[..], original, start, optind)
        && Scan(cfg, original, start).why != LoneDash && said == old(said) == Reports(cfg, original, start)
    {
      hide Scanner.Heard, Arranged, Lead, Scan, Reports, RoleAt, OnTrack, Partitioned, PermuteArgs.Exchanged, IsOperand;
      while true
        invariant Looking() && optind >= old(optind) && optarg == None && said == old(said)
        decreases nargv.Length - optind
      {
        optreset := false;
        if optind >= nargv.Length {
          AtEnd();
          return Some(-1);
        }
        placeWord, placeOff := nargv[optind], 0;
        assert placeWord == original[optind] by {
          ArrangedTail(nargv[..], original, start, nonoptStart, nonoptEnd, consumed, operands, optind, false);
        }
        if !IsOperand(cfg, placeWord) {
          return None;
        }
        placeWord, placeOff := "", 0;
        if cfg.allArgs {
          var inorder := InOrder();
          return Some(inorder);
        }
        if !cfg.permute {
          StopAtOperand();
          return Some(-1);
        }
        OperandRole(cfg, original, optind);
        SkipOperand();
      }
    }

    /** The scanner works inside the word at `optind`: a block of operands before it is closed. */
    ghost predicate Inside()
      reads this, nargv
    {
      && cfg.Valid() && |original| == nargv.Length && 1 <= start <= optind < nargv.Length
      && Reached(optind, true)
    }

    /** Lines 376-377. */
    method CloseBlock()
      requires Looking() && optind < nargv.Length
      modifies this`nonoptEnd
      ensures Inside()
    {
      if nonoptStart != -1 && nonoptEnd == -1 {
        nonoptEnd := optind;
        assert nargv[nonoptEnd..optind] == [];
      }
    }

    /** Lines 383-395: the word at `optind` is "--"; the block of operands is moved behind it. */
    method AtMarker()
      requires Inside() && RoleAt(cfg, original, optind) == Marker && Heard(Reports(cfg, original, optind))
      modifies this`optind, this`placeWord, this`placeOff, this`nonoptStart, this`nonoptEnd, nargv
      ensures Partitioned(Scan(cfg, original, start), nargv[..], original, start, optind)
      ensures Scan(cfg, original, start).why == EndMarker && said == Reports(cfg, original, start)
    {
      hide Scan, Reports, ReportsFrom, RoleAt, OnTrack, Partitioned, PermuteArgs.Exchanged;
      HeardAll();
      ReportsOver(cfg, original, optind);
      hide Scanner.Heard;
      ScanOver(cfg, original, optind);
      MarkerDone(Scan(cfg, original, start), nargv[..], original, start, nonoptStart, nonoptEnd, consumed, operands,
                 optind);
      optind := optind + 1;
      placeWord, placeOff := "", 0;
      if nonoptEnd != -1 {
        PermuteArgs.Permute(nonoptStart, nonoptEnd, optind, nargv);
        optind := optind - (nonoptEnd - nonoptStart);
      }
      nonoptStart, nonoptEnd := -1, -1;
    }

    ghost predicate InWord(at: nat, word: string, off: nat)
      reads this`said
    {
      && at < |original| && word == original[at] && off < |word|
      && !IsOperand(cfg, word) && word != "--" && FirstOffset(word) <= off
      && Extent(cfg, word, off, original[at + 1..]) == Extent(cfg, word, FirstOffset(word), original[at + 1..])
      && Heard(ReportsFrom(cfg, original, at, off))
    }

    /** The rest of a call, with its effect on the run: the word goes on, or it is consumed with
        the words it takes, or the scan stops at a lone '-'. */
    method CallInWord() returns (ret: int)
      requires Inside() && InWord(optind, placeWord, placeOff) && !optreset && optarg == None
      modifies this
      ensures !optreset && said == old(said) + if ret == -1 then [] else [(ret, optarg)]
      ensures ret != -1 && optind == old(optind) ==>
        Inside() && InWord(optind, placeWord, placeOff) && placeWord == old(placeWord) && placeOff > old(placeOff)
      ensures ret != -1 && optind != old(optind) ==> Looking() && placeOff == |placeWord| && optind > old(optind)
      ensures var whole := Scan(cfg, original, start);
        ret == -1 ==>
          && cfg.longOptions == None && whole.why == LoneDash && optind == whole.tail
          && said == Reports(cfg, original, start)
          && (Partitioned(whole, nargv[..], original, start, optind) <==> whole.operands == [])
    {
      hide Scan, Reports, ReportsFrom, StepReport, IsOperand, Arranged, Partitioned, OnTrack, LongTakes, ShortStep;
      hide TriesLong;
      ghost var at, word, off, rest := optind, placeWord, placeOff, original[optind + 1..];
      assert rest == nargv[optind + 1..] by {
        ArrangedTail(nargv[..], original, start, nonoptStart, nonoptEnd, consumed, operands, at, true);
      }
      OptionWord(cfg, word);
      ReportsInWord(cfg, original, at, off);
      HeardAll();
      ret := ScanWord(rest);
      ScanOver(cfg, original, at);
      if ret != -1 {
        HeardNext((ret, optarg),
                  if StepAt(cfg, word, off, rest) == Continue then ReportsFrom(cfg, original, at, off + 1)
                  else Reports(cfg, original, optind));
        said := said + [(ret, optarg)];
      }
      if StepAt(cfg, word, off, rest).Finish? {
        Take(at);
      } else if ret == -1 {
        StoppedAtDash(Scan(cfg, original, start), nargv[..], original, start, nonoptStart, nonoptEnd,
                      consumed, operands, at);
      }
    }

    /** The state between two calls of a run. */
    ghost predicate Valid()
      reads this, nargv
    {
      && cfg.Valid() && 1 <= start <= |original| == nargv.Length && placeOff <= |placeWord|
      && if optreset || optind == 0 then Fresh()
         else if placeOff == |placeWord| then Looking()
         else Inside() && InWord(optind, placeWord, placeOff)
    }

    /** Lines 304-322: a reset forgets what an earlier run has left behind. */
    method Prologue()
      requires Valid()
      modifies this`optind, this`optreset, this`optarg, this`nonoptStart, this`nonoptEnd
      ensures optind >= 1 && optarg == None && placeOff <= |placeWord|
      ensures old(optreset || optind == 0) ==> optreset
      ensures !old(optreset || optind == 0) ==> !optreset && optind == old(optind)
      ensures if optreset || placeOff == |placeWord| then Looking() else Inside() && InWord(optind, placeWord, placeOff)
    {
      hide Scan, Reports, ReportsFrom, Arranged, OnTrack, IsOperand, Extent;
      NothingScanned(Scan(cfg, original, start), original, start);
      HeardAll();
      if optind == 0 {
        optind, optreset := 1, true;
      }
      optarg := None;
      if optreset {
        nonoptStart, nonoptEnd := -1, -1;
      }
    }

    /** getopt_internal(): one call. While a run lasts, every call makes progress; the call
        that returns -1 leaves argv and optind partitioned as the scan of the original argv
        says, except when the scan stops at a cluster that ends in '-' with operands skipped. */
    method GetoptInternal() returns (ret: int)
      requires Valid()
      modifies this, nargv
      ensures ret != -1 ==> Valid() && !optreset && optind != 0
      ensures said == old(said) + if ret == -1 then [] else [(ret, optarg)]
      ensures ret == -1 ==> said == Reports(cfg, original, start)
      ensures ret != -1 ==>
        || old(optreset || optind == 0) || optind > old(optind)
        || (optind == old(optind) && placeOff < |placeWord|
            && (old(placeOff == |placeWord|) || (placeWord == old(placeWord) && placeOff > old(placeOff))))
      ensures var whole := Scan(cfg, original, start);
        ret == -1 ==>
          && (Partitioned(whole, nargv[..], original, start, optind) <==> whole.why != LoneDash || whole.operands == [])
          && (whole.why == LoneDash ==> cfg.longOptions == None && optind == whole.tail)
    {
      hide Scan, Reports, ReportsFrom, RoleAt, IsOperand, Arranged, OnTrack, Partitioned, Extent, Fresh;
      Prologue();
      if optreset || placeOff == |placeWord| {
        var r := NextOption();
        if r.Some? {
          return r.value;
        }
        CloseBlock();
        OptionWord(cfg, placeWord);
        if |placeWord| > 1 {
          placeOff := 1;
          if placeWord[1] == '-' && |placeWord| == 2 {
            MarkerRole(cfg, original, optind);
            AtMarker();
            return -1;
          }
        }
        ReportsOfWord(cfg, original, optind);
      }
      ret := CallInWord();
    }
  }

  /** A whole run: calls until -1. It terminates, and argv ends up as the scan of the
      original argv says: what precedes the start, the consumed words, the operands, the
      rest; `optind` is the index of the first operand. */
  method Run(nargv: array<string>, cfg: Config) returns (optind: nat, rets: seq<(int, Option<string>)>)
    requires cfg.Valid() && nargv.Length >= 1
    modifies nargv
    ensures var argv, whole := old(nargv[..]), Scan(cfg, old(nargv[..]), 1);
      && (Partitioned(whole, nargv[..], argv, 1, optind) <==> whole.why != LoneDash || whole.operands == [])
      && (whole.why == LoneDash ==> cfg.longOptions == None)
    ensures rets == Reports(cfg, old(nargv[..]), 1)
  {
    hide Scan, Reports, Partitioned;
    var scanner := new Scanner(nargv, cfg);
    rets := [];
    var ret := scanner.GetoptInternal();
    while ret != -1
      invariant ret != -1 ==> scanner.Valid() && !scanner.optreset && scanner.optind != 0
      invariant ret == -1 ==>
        var argv, whole := scanner.original, Scan(cfg, scanner.original, 1);
        && (Partitioned(whole, nargv[..], argv, 1, scanner.optind) <==> whole.why != LoneDash || whole.operands == [])
        && (whole.why == LoneDash ==> cfg.longOptions == None)
      invariant scanner.said == rets + if ret == -1 then [] else [(ret, scanner.optarg)]
      invariant ret == -1 ==> scanner.said == Reports(cfg, scanner.original, 1)
      decreases ret != -1, nargv.Length - scanner.optind, scanner.placeOff == |scanner.placeWord|,
        |scanner.placeWord| - scanner.placeOff
    {
      rets := rets + [(ret, scanner.optarg)];
      ret := scanner.GetoptInternal();
    }
    optind := scanner.optind;
  }

  // ---- what the scan's layout is ---------------------------------------------

  /** The elements of `s` whose mark is `b`, in order. */
  function Pick<T>(s: seq<T>, marks: seq<bool>, b: bool): seq<T>
    requires |s| == |marks|
  {
    if s == [] then [] else (if marks[0] == b then [s[0]] else []) + Pick(s[1..], marks[1..], b)
  }

  lemma {:induction false} PickAppend<T>(s: seq<T>, ms: seq<bool>, t: seq<T>, mt: seq<bool>, b: bool)
    requires |s| == |ms| && |t| == |mt|
    ensures Pick(s + t, ms + mt, b) == Pick(s, ms, b) + Pick(t, mt, b)
  {
    if s == [] {
      assert s + t == t && ms + mt == mt;
    } else {
      assert (s + t)[1..] == s[1..] + t && (ms + mt)[1..] == ms[1..] + mt;
      PickAppend(s[1..], ms[1..], t, mt, b);
      var first := if ms[0] == b then [s[0]] else [];
      assert first + (Pick(s[1..], ms[1..], b) + Pick(t, mt, b)) == (first + Pick(s[1..], ms[1..], b)) + Pick(t, mt, b);
    }
  }

  function Same(n: nat, mark: bool): (marks: seq<bool>)
    ensures |marks| == n && forall k | 0 <= k < n :: marks[k] == mark
  {
    seq(n, _ => mark)
  }

  lemma {:induction false} PickSame<T>(s: seq<T>, mark: bool, b: bool)
    ensures Pick(s, Same(|s|, mark), b) == if mark == b then s else []
  {
    if s != [] {
      assert Same(|s|, mark)[1..] == Same(|s[1..]|, mark);
      PickSame(s[1..], mark, b);
    }
  }

  /** The layout is a stable partition of the words scanned, the words set aside are
      operands, and only a permuting scan sets any aside. */
  lemma {:induction false} StablePartition(cfg: Config, argv: seq<string>, i: nat) returns (marks: seq<bool>)
    requires i <= |argv|
    ensures var l := Scan(cfg, argv, i);
      && |marks| == l.tail - i
      && l.consumed == Pick(argv[i..l.tail], marks, true)
      && l.operands == Pick(argv[i..l.tail], marks, false)
      && (forall k | 0 <= k < |marks| && !marks[k] :: IsOperand(cfg, argv[i + k]) && cfg.permute && !cfg.allArgs)
    decreases |argv| - i
  {
    hide Scan, RoleAt, IsOperand, Pick;
    var l := Scan(cfg, argv, i);
    if i == |argv| {
      ScanEnd(cfg, argv);
    } else {
      ScanOver(cfg, argv, i);
      SkippedRole(cfg, argv, i);
      var role := RoleAt(cfg, argv, i);
      if role.Consumed? || role.Skipped? {
        var next := i + 1 + if role.Consumed? then role.more else 0;
        var rest := StablePartition(cfg, argv, next);
        marks := PickMore(argv[i..next], role.Consumed?, argv[next..l.tail], rest);
        assert argv[i..l.tail] == argv[i..next] + argv[next..l.tail];
        OneWord(argv, i);
        return;
      }
    }
    assert argv[i..l.tail] == l.consumed && l.operands == [];
    marks := Same(|l.consumed|, true);
    PickSame(l.consumed, true, true);
    PickSame(l.consumed, true, false);
  }

  lemma OneWord(argv: seq<string>, i: nat)
    requires i < |argv|
    ensures argv[i..i + 1] == [argv[i]]
  {
  }

  lemma PickMore<T>(s: seq<T>, mark: bool, t: seq<T>, rest: seq<bool>) returns (marks: seq<bool>)
    requires |t| == |rest|
    ensures |marks| == |s| + |t|
    ensures Pick(s + t, marks, true) == (if mark then s else []) + Pick(t, rest, true)
    ensures Pick(s + t, marks, false) == (if mark then [] else s) + Pick(t, rest, false)
    ensures forall k | 0 <= k < |marks| :: marks[k] == if k < |s| then mark else rest[k - |s|]
  {
    hide Pick;
    marks := Same(|s|, mark) + rest;
    PickAppend(s, Same(|s|, mark), t, rest, true);
    PickAppend(s, Same(|s|, mark), t, rest, false);
    PickSame(s, mark, true);
    PickSame(s, mark, false);
  }

  lemma SkippedRole(cfg: Config, argv: seq<string>, i: nat)
    requires i < |argv|
    ensures RoleAt(cfg, argv, i) == Skipped ==> IsOperand(cfg, argv[i]) && cfg.permute && !cfg.allArgs
  {
  }

  /** A permuting scan with a long option table ends at the end of argv or at "--". */
  lemma {:induction false} PermutingScanEnds(cfg: Config, argv: seq<string>, i: nat)
    requires i <= |argv| && cfg.permute && !cfg.allArgs && cfg.longOptions.Some?
    ensures Scan(cfg, argv, i).why in {Exhausted, EndMarker}
    decreases |argv| - i
  {
    hide Scan, RoleAt;
    if i == |argv| {
      ScanEnd(cfg, argv);
    } else {
      ScanOver(cfg, argv, i);
      NotHalting(cfg, argv, i);
      match RoleAt(cfg, argv, i)
      case Consumed(n) => PermutingScanEnds(cfg, argv, i + 1 + n);
      case Skipped => PermutingScanEnds(cfg, argv, i + 1);
      case Marker =>
      case Halting(why) => assert false;
    }
  }

  lemma NotHalting(cfg: Config, argv: seq<string>, i: nat)
    requires i < |argv| && cfg.permute && cfg.longOptions.Some?
    ensures !RoleAt(cfg, argv, i).Halting?
  {
    if !IsOperand(cfg, argv[i]) && argv[i] != "--" {
      NoHalt(cfg, argv[i], FirstOffset(argv[i]), argv[i + 1..]);
    }
  }

  lemma StepGoesOn(cfg: Config, word: string, off: nat, rest: seq<string>)
    requires off < |word| && cfg.longOptions.Some? && (off == 0 ==> '-' in cfg.options)
    ensures StepAt(cfg, word, off, rest) != Halt
  {
    hide LongTakes, Lookup;
  }

  lemma {:induction false} NoHalt(cfg: Config, word: string, off: nat, rest: seq<string>)
    requires off < |word| && cfg.longOptions.Some? && (off == 0 ==> '-' in cfg.options)
    ensures Extent(cfg, word, off, rest) != Halt
    decreases |word| - off
  {
    hide StepAt;
    StepGoesOn(cfg, word, off, rest);
    if StepAt(cfg, word, off, rest) == Continue {
      NoHalt(cfg, word, off + 1, rest);
    }
  }

  /** A program's run of getopt_long() or getopt_long_only() with a table: unless the option string or the
      environment asks for another mode, argv always ends up partitioned, scanned to its end or to "--". */
  method RunGetoptLong(nargv: array<string>, options: string, table: seq<LongOption>,
                       longOnly: bool, posixlyCorrect: bool)
    returns (optind: nat, rets: seq<(int, Option<string>)>)
    requires Configure(options, Some(table), true, longOnly, posixlyCorrect).Valid() && nargv.Length >= 1
    modifies nargv
    ensures var whole := Scan(Configure(options, Some(table), true, longOnly, posixlyCorrect), old(nargv[..]), 1);
      && Partitioned(whole, nargv[..], old(nargv[..]), 1, optind)
      && (!posixlyCorrect && (options == "" || options[0] !in {'+', '-'}) ==> whole.why in {Exhausted, EndMarker})
    ensures rets == Reports(Configure(options, Some(table), true, longOnly, posixlyCorrect), old(nargv[..]), 1)
  {
    hide Scan, Partitioned;
    var cfg := Configure(options, Some(table), true, longOnly, posixlyCorrect);
    if cfg.permute && !cfg.allArgs {
      PermutingScanEnds(cfg, nargv[..], 1);
    }
    optind, rets := Run(nargv, cfg);
  }

  /** Without a table, the cluster "-a-" stops a scan, and an operand skipped before it stays in front of `optind`. */
  lemma LoneDashExample()
    ensures var cfg := Config("a", None, true, false, false);
      Scan(cfg, ["prog", "x", "-a-"], 1) == Layout([], ["x"], 2, LoneDash)
  {
    var cfg := Config("a", None, true, false, false);
    var argv := ["prog", "x", "-a-"];
    assert StepAt(cfg, "-a-", 1, []) == Continue;
    assert StepAt(cfg, "-a-", 2, []) == Halt;
    assert Extent(cfg, "-a-", 1, []) == Halt;
    assert argv[3..] == [];
    assert RoleAt(cfg, argv, 2) == Halting(LoneDash);
    ScanOver(cfg, argv, 2);
    ScanOver(cfg, argv, 1);
  }
}
