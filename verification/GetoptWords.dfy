/** What the words of a command line mean (getopt_long.c): the reports of a run, word by word, from the text of
    the words, the option string and the table. */
module GetoptWords {
  import opened Getopt
  import opened Wrappers

  // ---- which entry a name stands for -----------------------------------------

  ghost predicate FirstNamed(table: seq<LongOption>, k: nat, n: string) {
    k < |table| && table[k].name == n && forall j | 0 <= j < k :: table[j].name != n
  }

  ghost predicate Unnamed(table: seq<LongOption>, n: string) {
    forall j | 0 <= j < |table| :: table[j].name != n
  }

  /** `n` is a proper beginning of the entry's name, and not a single letter if a letter could be meant. */
  ghost predicate Abbreviates(table: seq<LongOption>, n: string, k: nat, letterToo: bool) {
    k < |table| && n < table[k].name && !(letterToo && |n| == 1)
  }

  predicate Alike(o: LongOption, p: LongOption) {
    o.hasArg == p.hasArg && o.flag == p.flag && o.val == p.val
  }

  /** Two entries are abbreviated that are not alike; for getopt_long_only() any two. */
  ghost predicate Clashes(table: seq<LongOption>, n: string, letterToo: bool, longOnly: bool) {
    exists j: nat, k: nat ::
      && j < k && Abbreviates(table, n, j, letterToo) && Abbreviates(table, n, k, letterToo)
      && (longOnly || !Alike(table[j], table[k]))
  }

  /** `n` stands for entry `k`: the first of that name or, if there is none, the first that it abbreviates, unless
      two that it abbreviates clash. */
  ghost predicate Names(table: seq<LongOption>, n: string, k: nat, letterToo: bool, longOnly: bool) {
    || FirstNamed(table, k, n)
    || (&& Unnamed(table, n) && Abbreviates(table, n, k, letterToo)
        && (forall j: nat | j < k :: !Abbreviates(table, n, j, letterToo))
        && !Clashes(table, n, letterToo, longOnly))
  }

  /** `n` is no name and abbreviates none. */
  ghost predicate Foreign(table: seq<LongOption>, n: string, letterToo: bool) {
    Unnamed(table, n) && forall k: nat :: !Abbreviates(table, n, k, letterToo)
  }

  lemma PartialMeans(table: seq<LongOption>, n: string, letterToo: bool)
    ensures forall k: nat | k < |table| :: IsPartial(table[k], n, letterToo) <==> Abbreviates(table, n, k, letterToo)
  {
  }

  /** It is enough to compare with the first entry that is abbreviated. */
  lemma ClashMeans(table: seq<LongOption>, n: string, letterToo: bool, longOnly: bool)
    ensures var first := FirstPartial(table, n, letterToo);
      Clashes(table, n, letterToo, longOnly) <==> first < |table| && exists j ::
        first < j < |table| && IsPartial(table[j], n, letterToo) && Clash(table[j], table[first], longOnly)
  {
    PartialMeans(table, n, letterToo);
    var first := FirstPartial(table, n, letterToo);
    hide IsPartial;
    if Clashes(table, n, letterToo, longOnly) {
      var j: nat, k: nat :|
        && j < k && Abbreviates(table, n, j, letterToo) && Abbreviates(table, n, k, letterToo)
        && (longOnly || !Alike(table[j], table[k]));
      assert first <= j;
      assert Clash(table[k], table[first], longOnly) || (first < j && Clash(table[j], table[first], longOnly));
    }
    if j :| first < j < |table| && IsPartial(table[j], n, letterToo) && Clash(table[j], table[first], longOnly) {
      assert Abbreviates(table, n, first, letterToo) && Abbreviates(table, n, j, letterToo);
      assert longOnly || !Alike(table[first], table[j]);
    }
  }

  /** The matching loop tells these three cases apart. */
  lemma LookupMeans(table: seq<LongOption>, n: string, letterToo: bool, longOnly: bool)
    ensures var m := Lookup(table, n, letterToo, longOnly);
      && (m == Unmatched <==> Foreign(table, n, letterToo))
      && (m == Ambiguous <==> Unnamed(table, n) && Clashes(table, n, letterToo, longOnly))
      && forall k: nat :: m == Match(k) <==> Names(table, n, k, letterToo, longOnly)
  {
    var exact, first := FirstExact(table, n), FirstPartial(table, n, letterToo);
    PartialMeans(table, n, letterToo);
    ClashMeans(table, n, letterToo, longOnly);
    hide IsPartial, Clash, Clashes;
    assert exact < |table| <==> !Unnamed(table, n);
    assert first < |table| ==> Abbreviates(table, n, first, letterToo);
    assert first < |table| <==> exists k: nat :: Abbreviates(table, n, k, letterToo);
  }

  // ---- long options ----------------------------------------------------------

  /** `n` is the text up to the first '='. */
  ghost predicate Cut(text: string, n: string) {
    '=' !in n && (text == n || exists a: string :: text == n + "=" + a)
  }

  lemma {:induction false} IndexIs(s: string, i: nat, c: char)
    requires i < |s| && s[i] == c && c !in s[..i]
    ensures IndexOf(s, c) == i
  {
    if i > 0 {
      assert s[0] == s[..i][0] && s[1..][..i - 1] == s[..i][1..];
      IndexIs(s[1..], i - 1, c);
    }
  }

  lemma CutIs(text: string, n: string)
    requires Cut(text, n)
    ensures NamePart(text) == n
    ensures '=' in text ==> n + "=" + text[IndexOf(text, '=') + 1..] == text
    ensures text == n <==> '=' !in text
  {
    if text != n {
      var a: string :| text == n + "=" + a;
      assert text[|n|] == '=' && text[..|n|] == n;
      IndexIs(text, |n|, '=');
    }
  }

  /** `word` is `text` spelled as a long option. */
  ghost predicate Spelled(cfg: Config, word: string, text: string) {
    text != "" && (word == "--" + text || (cfg.longOnly && text[0] != '-' && word == "-" + text))
  }

  /** It could begin with a short option as well. */
  ghost predicate LetterToo(cfg: Config, word: string, text: string)
    requires text != ""
  {
    word == "-" + text && text[0] != '-' && text[0] != ':' && text[0] in cfg.options
  }

  lemma LongStep(cfg: Config, argv: seq<string>, i: nat, text: string, n: string)
    requires cfg.longOptions.Some? && i < |argv| && Spelled(cfg, argv[i], text) && Cut(text, n)
    requires !(LetterToo(cfg, argv[i], text) && Foreign(cfg.longOptions.value, n, true))
    ensures var table, single, rest := cfg.longOptions.value, LetterToo(cfg, argv[i], text), argv[i + 1..];
      var r := LongReport(cfg, text, single, rest);
      Reports(cfg, argv, i)
        == [(r.ret, r.arg)] + Reports(cfg, argv, i + 1 + LongTakes(table, text, single, cfg.longOnly, |rest|))
  {
    hide Reports, ReportsFrom, LongReport, LongTakes, Lookup, ShortStep, ShortReport;
    var word := argv[i];
    ReportsOfWord(cfg, argv, i);
    ReportsInWord(cfg, argv, i, 1);
    CutIs(text, n);
    LookupMeans(cfg.longOptions.value, n, LetterToo(cfg, word, text), cfg.longOnly);
    assert LongText(word, 1) == text;
    assert ShortToo(cfg, word, 1) == LetterToo(cfg, word, text);
  }

  /** What an entry gives back: its value, or 0 if it is stored through its flag. */
  function Result(o: LongOption): int {
    if o.flag == 0 then o.val else 0
  }

  /** "--n=a": the entry that n stands for is reported with the argument a, or refused if it takes none. */
  lemma LongWithValue(cfg: Config, argv: seq<string>, i: nat, n: string, a: string, k: nat)
    requires cfg.longOptions.Some? && i < |argv| && '=' !in n && Spelled(cfg, argv[i], n + "=" + a)
    requires Names(cfg.longOptions.value, n, k, LetterToo(cfg, argv[i], n + "=" + a), cfg.longOnly)
    ensures var o := cfg.longOptions.value[k];
      var said := if o.hasArg == NoArgument then (BadArg(cfg.options), None) else (Result(o), Some(a));
      Reports(cfg, argv, i) == [said] + Reports(cfg, argv, i + 1)
  {
    hide Reports, Lookup, LetterToo, Spelled, Names, Foreign;
    var text, table := n + "=" + a, cfg.longOptions.value;
    var single := LetterToo(cfg, argv[i], text);
    assert Cut(text, n);
    CutIs(text, n);
    assert text[|n|] == '=' && text[..|n|] == n;
    IndexIs(text, |n|, '=');
    assert text[|n| + 1..] == a;
    LookupMeans(table, n, single, cfg.longOnly);
    LongStep(cfg, argv, i, text, n);
  }

  lemma FoundWithoutValue(cfg: Config, n: string, k: nat, single: bool, rest: seq<string>)
    requires cfg.longOptions.Some? && '=' !in n && Lookup(cfg.longOptions.value, n, single, cfg.longOnly) == Match(k)
    ensures k < |cfg.longOptions.value|
    ensures var o, r := cfg.longOptions.value[k], LongReport(cfg, n, single, rest);
      (r.ret, r.arg) ==
        if o.hasArg != RequiredArgument then (Result(o), None)
        else if rest != [] then (Result(o), Some(rest[0]))
        else (BadArg(cfg.options), None)
    ensures LongTakes(cfg.longOptions.value, n, single, cfg.longOnly, |rest|)
      == if cfg.longOptions.value[k].hasArg == RequiredArgument && rest != [] then 1 else 0
  {
    hide Lookup;
  }

  /** "--n": the entry that n stands for is reported; exactly if it demands an argument, that is the next word, and
      without a next word it is refused. */
  lemma LongWithoutValue(cfg: Config, argv: seq<string>, i: nat, n: string, k: nat)
    requires cfg.longOptions.Some? && i < |argv| && '=' !in n && Spelled(cfg, argv[i], n)
    requires Names(cfg.longOptions.value, n, k, LetterToo(cfg, argv[i], n), cfg.longOnly)
    ensures var o := cfg.longOptions.value[k];
      Reports(cfg, argv, i) ==
        if o.hasArg != RequiredArgument then [(Result(o), None)] + Reports(cfg, argv, i + 1)
        else if i + 1 < |argv| then [(Result(o), Some(argv[i + 1]))] + Reports(cfg, argv, i + 2)
        else [(BadArg(cfg.options), None)]
  {
    assert Reports(cfg, argv, |argv|) == [];
    var single := LetterToo(cfg, argv[i], n);
    hide Reports, Lookup, LetterToo, Spelled, Names, Foreign, LongReport, LongTakes;
    assert Cut(n, n);
    LookupMeans(cfg.longOptions.value, n, single, cfg.longOnly);
    FoundWithoutValue(cfg, n, k, single, argv[i + 1..]);
    LongStep(cfg, argv, i, n, n);
  }

  /** A name that stands for no entry is reported as '?', unless the word can be read as short options. */
  lemma LongUnknown(cfg: Config, argv: seq<string>, i: nat, text: string, n: string)
    requires cfg.longOptions.Some? && i < |argv| && Spelled(cfg, argv[i], text) && Cut(text, n)
    requires forall k: nat :: !Names(cfg.longOptions.value, n, k, LetterToo(cfg, argv[i], text), cfg.longOnly)
    requires !(LetterToo(cfg, argv[i], text) && Foreign(cfg.longOptions.value, n, true))
    ensures Reports(cfg, argv, i) == [('?' as int, None)] + Reports(cfg, argv, i + 1)
  {
    var single := LetterToo(cfg, argv[i], text);
    hide Reports, Lookup, LetterToo, Spelled, Names, Foreign;
    CutIs(text, n);
    LookupMeans(cfg.longOptions.value, n, single, cfg.longOnly);
    LongStep(cfg, argv, i, text, n);
  }

  // ---- short options ---------------------------------------------------------

  /** A word of short options is read letter by letter. */
  lemma LettersStart(cfg: Config, argv: seq<string>, i: nat)
    requires i < |argv| && |argv[i]| > 1 && argv[i][0] == '-' && argv[i] != "--"
    ensures Reports(cfg, argv, i) == ReportsFrom(cfg, argv, i, 1)
  {
    hide ReportsFrom;
    ReportsOfWord(cfg, argv, i);
  }

  /** The character at `off` is taken for a letter: no long option is tried, or none matches and it is one. */
  ghost predicate ReadAsLetter(cfg: Config, word: string, off: nat, n: string) {
    && 0 < off < |word| && word[off] != '-'
    && (cfg.longOptions.Some? && cfg.longOnly ==>
          && word[off] != ':' && word[off] in cfg.options
          && Cut(word[off..], n) && Foreign(cfg.longOptions.value, n, true))
  }

  lemma LetterStep(cfg: Config, argv: seq<string>, i: nat, off: nat, n: string)
    requires i < |argv| && ReadAsLetter(cfg, argv[i], off, n)
    ensures var word, rest := argv[i], argv[i + 1..];
      && StepAt(cfg, word, off, rest) == ShortStep(cfg, word, off, rest)
      && StepReport(cfg, word, off, rest) == ShortReport(cfg, word, off, rest)
  {
    hide ShortStep, ShortReport, Lookup, LongReport, LongTakes;
    if cfg.longOptions.Some? && cfg.longOnly {
      CutIs(argv[i][off..], n);
      LookupMeans(cfg.longOptions.value, n, true, cfg.longOnly);
    }
  }

  lemma LetterAt(options: string, before: string, c: char, behind: string)
    requires options == before + [c] + behind && c !in before
    ensures c in options
    ensures var k := IndexOf(options, c);
      && k == |before|
      && (At(options, k + 1) == ':' <==> [':'] <= behind) && (At(options, k + 1) == ';' <==> [';'] <= behind)
      && ([':'] <= behind ==> (At(options, k + 2) == ':' <==> "::" <= behind))
  {
    assert options[|before|] == c && options[..|before|] == before;
    IndexIs(options, |before|, c);
    assert behind != [] ==> options[|before| + 1] == behind[0];
    assert |behind| > 1 ==> options[|before| + 2] == behind[1];
  }

  lemma LetterMeans(cfg: Config, word: string, off: nat, rest: seq<string>, before: string, c: char, behind: string)
    requires off < |word| && word[off] == c != ':' && c != '-'
    requires cfg.options == before + [c] + behind && c !in before
    requires !(c == 'W' && [';'] <= behind && cfg.longOptions.Some?)
    ensures var e, r, last := ShortStep(cfg, word, off, rest), ShortReport(cfg, word, off, rest), off + 1 == |word|;
      if !([':'] <= behind) then (e == if last then Finish(0) else Continue) && (r.ret, r.arg) == (c as int, None)
      else if !last then e == Finish(0) && (r.ret, r.arg) == (c as int, Some(word[off + 1..]))
      else if "::" <= behind then e == Finish(0) && (r.ret, r.arg) == (c as int, None)
      else if rest != [] then e == Finish(1) && (r.ret, r.arg) == (c as int, Some(rest[0]))
      else e == Finish(0) && (r.ret, r.arg) == (BadArg(cfg.options), None)
  {
    LetterAt(cfg.options, before, c, behind);
    hide IndexOf, At, LongReport, LongTakes;
  }

  /** A letter c of the option string, by what stands behind it there: nothing, ':' or '::'. Attached text is the
      argument of a letter that takes one; "c:" takes the next word if there is no text, and is refused without. */
  lemma Letter(cfg: Config, argv: seq<string>, i: nat, off: nat, n: string, before: string, c: char, behind: string)
    requires i < |argv| && ReadAsLetter(cfg, argv[i], off, n) && argv[i][off] == c != ':'
    requires cfg.options == before + [c] + behind && c !in before
    requires !(c == 'W' && [';'] <= behind && cfg.longOptions.Some?)
    ensures ReportsFrom(cfg, argv, i, off) ==
      if !([':'] <= behind) then
        [(c as int, None)]
          + if off + 1 < |argv[i]| then ReportsFrom(cfg, argv, i, off + 1) else Reports(cfg, argv, i + 1)
      else if off + 1 < |argv[i]| then [(c as int, Some(argv[i][off + 1..]))] + Reports(cfg, argv, i + 1)
      else if "::" <= behind then [(c as int, None)] + Reports(cfg, argv, i + 1)
      else if i + 1 < |argv| then [(c as int, Some(argv[i + 1]))] + Reports(cfg, argv, i + 2)
      else [(BadArg(cfg.options), None)]
  {
    assert Reports(cfg, argv, |argv|) == [];
    var word, rest := argv[i], argv[i + 1..];
    LetterStep(cfg, argv, i, off, n);
    ReportsInWord(cfg, argv, i, off);
    LetterMeans(cfg, word, off, rest, before, c, behind);
    hide Reports, ReportsFrom, StepAt, StepReport, ShortStep, ShortReport;
  }

  /** A character that is no option letter is reported as '?'. */
  lemma UnknownLetter(cfg: Config, argv: seq<string>, i: nat, off: nat)
    requires i < |argv| && 0 < off < |argv[i]| && argv[i][off] != '-' && (cfg.longOptions.Some? ==> !cfg.longOnly)
    requires argv[i][off] == ':' || argv[i][off] !in cfg.options
    ensures ReportsFrom(cfg, argv, i, off) == [('?' as int, None)]
      + if off + 1 < |argv[i]| then ReportsFrom(cfg, argv, i, off + 1) else Reports(cfg, argv, i + 1)
  {
    ReportsInWord(cfg, argv, i, off);
    LetterStep(cfg, argv, i, off, "");
    hide Reports, ReportsFrom, StepAt, StepReport;
  }

  lemma RoleTail(cfg: Config, a: seq<string>, b: seq<string>, i: nat)
    requires i < |a| == |b| && a[i] == b[i] && a[i + 1..] == b[i + 1..]
    ensures RoleAt(cfg, a, i) == RoleAt(cfg, b, i)
    ensures RoleAt(cfg, a, i).Consumed? && !IsOperand(cfg, a[i]) ==>
      && FirstOffset(a[i]) < |a[i]|
      && Extent(cfg, a[i], FirstOffset(a[i]), a[i + 1..]) == Finish(RoleAt(cfg, a, i).more)
    ensures RoleAt(cfg, a, i) == Halting(LoneDash) ==>
      FirstOffset(a[i]) < |a[i]| && Extent(cfg, a[i], FirstOffset(a[i]), a[i + 1..]) == Halt
  {
    hide Extent;
  }

  lemma FromMeans(cfg: Config, argv: seq<string>, i: nat, off: nat, e: Step)
    requires i < |argv| && off < |argv[i]| && e == Extent(cfg, argv[i], off, argv[i + 1..])
    ensures ReportsFrom(cfg, argv, i, off) ==
      WordReports(cfg, argv[i], off, argv[i + 1..]) + if e.Finish? then Reports(cfg, argv, i + 1 + e.words) else []
  {
    hide Extent, WordReports, Reports;
  }

  /** Where a run goes on after the word at `i`. */
  function Next(cfg: Config, argv: seq<string>, i: nat): (next: nat)
    requires i < |argv|
    ensures i < next <= |argv|
  {
    var role := RoleAt(cfg, argv, i);
    i + 1 + if role.Consumed? then role.more else 0
  }

  /** The reports of a word, by its role and those after it. */
  function Said(cfg: Config, word: string, rest: seq<string>, role: Role, after: seq<(int, Option<string>)>)
    : seq<(int, Option<string>)>
  {
    match role
    case Consumed(_) =>
      if IsOperand(cfg, word) then [(INORDER, Some(word))] + after
      else if FirstOffset(word) < |word| then WordReports(cfg, word, FirstOffset(word), rest) + after
      else []
    case Skipped => after
    case Marker => []
    case Halting(why) =>
      if why == LoneDash && FirstOffset(word) < |word| then WordReports(cfg, word, FirstOffset(word), rest) else []
  }

  lemma SaidIs(cfg: Config, argv: seq<string>, i: nat)
    requires i < |argv|
    ensures Reports(cfg, argv, i)
      == Said(cfg, argv[i], argv[i + 1..], RoleAt(cfg, argv, i), Reports(cfg, argv, Next(cfg, argv, i)))
  {
    hide RoleAt, Reports, ReportsFrom, Extent, IsOperand, WordReports, FirstOffset;
    var word, role, off := argv[i], RoleAt(cfg, argv, i), FirstOffset(argv[i]);
    RoleTail(cfg, argv, argv, i);
    if !IsOperand(cfg, word) && role.Consumed? {
      ReportsOver(cfg, argv, i);
      FromMeans(cfg, argv, i, off, Finish(role.more));
    } else if role == Halting(LoneDash) {
      ReportsOver(cfg, argv, i);
      FromMeans(cfg, argv, i, off, Halt);
      assert WordReports(cfg, word, off, argv[i + 1..]) + [] == WordReports(cfg, word, off, argv[i + 1..]);
    } else {
      ReportsOver(cfg, argv, i);
    }
  }

  /** What a run reports from a word on depends on the words from there on. */
  lemma {:induction false} ReportsTail(cfg: Config, a: seq<string>, b: seq<string>, i: nat)
    requires i <= |a| == |b| && a[i..] == b[i..]
    ensures Reports(cfg, a, i) == Reports(cfg, b, i)
    decreases |a| - i
  {
    hide RoleAt, ReportsFrom, IsOperand, Said;
    if i < |a| {
      hide Reports;
      TailShift(a, b, i, i + 1);
      assert a[i] == a[i..][0] == b[i..][0] == b[i];
      RoleTail(cfg, a, b, i);
      TailShift(a, b, i, Next(cfg, a, i));
      ReportsTail(cfg, a, b, Next(cfg, a, i));
      SaidIs(cfg, a, i);
      SaidIs(cfg, b, i);
    }
  }

  lemma WordLong(cfg: Config, argv: seq<string>, i: nat, text: string)
    requires cfg.longOptions.Some? && i < |argv| && text != "" && argv[i] == "--" + text
    ensures var r := LongReport(cfg, text, false, argv[i + 1..]);
      Reports(cfg, argv, i) == [(r.ret, r.arg)]
        + Reports(cfg, argv, i + 1 + LongTakes(cfg.longOptions.value, text, false, cfg.longOnly, |argv| - i - 1))
  {
    ReportsOfWord(cfg, argv, i);
    ReportsInWord(cfg, argv, i, 1);
    assert LongText(argv[i], 1) == text;
    hide Reports, ReportsFrom, LongReport, LongTakes, Lookup;
  }

  lemma LetterW(cfg: Config, word: string, rest: seq<string>)
    requires cfg.longOptions.Some? && !cfg.longOnly && |word| > 1 && word[1] == 'W'
    requires 'W' in cfg.options && At(cfg.options, IndexOf(cfg.options, 'W') + 1) == ';'
    ensures var table, e, r := cfg.longOptions.value, StepAt(cfg, word, 1, rest), StepReport(cfg, word, 1, rest);
      if |word| > 2 then
        && e == Finish(LongTakes(table, word[2..], false, cfg.longOnly, |rest|))
        && r == LongReport(cfg, word[2..], false, rest)
      else if rest != [] then
        && e == Finish(1 + LongTakes(table, rest[0], false, cfg.longOnly, |rest| - 1))
        && r == LongReport(cfg, rest[0], false, rest[1..])
      else e == Finish(0) && (r.ret, r.arg) == (BadArg(cfg.options), None)
  {
    hide LongReport, LongTakes, IndexOf, At;
  }

  /** The long option of a -W, whose text ends before the word at `next`. */
  lemma WordW(cfg: Config, argv: seq<string>, i: nat, text: string, next: nat)
    requires cfg.longOptions.Some? && !cfg.longOnly && i < next <= |argv|
    requires 'W' in cfg.options && At(cfg.options, IndexOf(cfg.options, 'W') + 1) == ';'
    requires |argv[i]| > 1 && argv[i][0] == '-' && argv[i][1] == 'W'
    requires if next == i + 1 then |argv[i]| > 2 && argv[i][2..] == text
      else |argv[i]| == 2 && next == i + 2 && argv[i + 1] == text
    ensures var r := LongReport(cfg, text, false, argv[next..]);
      Reports(cfg, argv, i) == [(r.ret, r.arg)]
        + Reports(cfg, argv, next + LongTakes(cfg.longOptions.value, text, false, cfg.longOnly, |argv| - next))
  {
    hide *;
    LettersStart(cfg, argv, i);
    ReportsInWord(cfg, argv, i, 1);
    LetterW(cfg, argv[i], argv[i + 1..]);
    assert next == i + 2 ==> argv[i + 1..][1..] == argv[next..];
  }

  lemma DashWLike(cfg: Config, argv: seq<string>, i: nat, text: string, next: nat, other: seq<string>)
    requires cfg.longOptions.Some? && !cfg.longOnly && i < next <= |argv| && text != ""
    requires 'W' in cfg.options && At(cfg.options, IndexOf(cfg.options, 'W') + 1) == ';'
    requires |argv[i]| > 1 && argv[i][0] == '-' && argv[i][1] == 'W'
    requires if next == i + 1 then |argv[i]| > 2 && argv[i][2..] == text
      else |argv[i]| == 2 && next == i + 2 && argv[i + 1] == text
    requires |other| == |argv| && other[next - 1] == "--" + text && other[next..] == argv[next..]
    ensures Reports(cfg, argv, i) == Reports(cfg, other, next - 1)
  {
    hide Reports, LongReport, LongTakes, IndexOf, At;
    WordW(cfg, argv, i, text, next);
    WordLong(cfg, other, next - 1, text);
    var after := next + LongTakes(cfg.longOptions.value, text, false, cfg.longOnly, |argv| - next);
    TailShift(argv, other, next, after);
    ReportsTail(cfg, argv, other, after);
  }

  /** "-Wtext" and "-W text" mean "--text" where the option string has "W;". */
  lemma DashW(cfg: Config, argv: seq<string>, i: nat, text: string, before: string, behind: string)
    requires cfg.longOptions.Some? && !cfg.longOnly && i < |argv| && text != ""
    requires cfg.options == before + ['W'] + behind && 'W' !in before && [';'] <= behind
    ensures argv[i] == "-W" + text ==> Reports(cfg, argv, i) == Reports(cfg, argv[i := "--" + text], i)
    ensures argv[i] == "-W" && i + 1 < |argv| && argv[i + 1] == text ==>
      Reports(cfg, argv, i) == Reports(cfg, argv[i + 1 := "--" + text], i + 1)
  {
    LetterAt(cfg.options, before, 'W', behind);
    hide Reports, IndexOf, At;
    if argv[i] == "-W" + text {
      assert argv[i][2..] == text && argv[i := "--" + text][i + 1..] == argv[i + 1..];
      DashWLike(cfg, argv, i, text, i + 1, argv[i := "--" + text]);
    }
    if argv[i] == "-W" && i + 1 < |argv| && argv[i + 1] == text {
      assert argv[i + 1 := "--" + text][i + 2..] == argv[i + 2..];
      DashWLike(cfg, argv, i, text, i + 2, argv[i + 1 := "--" + text]);
    }
  }

  // ---- operands --------------------------------------------------------------

  /** Neither an option nor the end marker: a word without '-' in front, or a lone '-' that is no option. */
  ghost predicate Plain(options: string, word: string) {
    !(['-'] <= word) || (word == "-" && '-' !in options)
  }

  /** The three modes. With '-' in front of the option string, operands are reported in order as 1; with '+', under
      POSIXLY_CORRECT and for getopt(), the first one ends the run; otherwise they are set aside. */
  lemma Operand(o: string, longOptions: Option<seq<LongOption>>, permute: bool, longOnly: bool, posix: bool,
                argv: seq<string>, i: nat)
    requires i < |argv| && Plain(o, argv[i])
    ensures var cfg := Configure("-" + o, longOptions, permute, longOnly, posix);
      cfg.options == o && Reports(cfg, argv, i) == [(1, Some(argv[i]))] + Reports(cfg, argv, i + 1)
    ensures var cfg := Configure("+" + o, longOptions, permute, longOnly, posix);
      cfg.options == o && Reports(cfg, argv, i) == [] && Scan(cfg, argv, i) == Layout([], [], i, AtOperand)
    ensures !(['-'] <= o) && !(['+'] <= o) ==>
      var cfg := Configure(o, longOptions, permute, longOnly, posix);
      && cfg.options == o
      && if permute && !posix then
           Reports(cfg, argv, i) == Reports(cfg, argv, i + 1)
           && Scan(cfg, argv, i).operands == [argv[i]] + Scan(cfg, argv, i + 1).operands
         else Reports(cfg, argv, i) == [] && Scan(cfg, argv, i) == Layout([], [], i, AtOperand)
  {
    assert ("-" + o)[1..] == o && ("+" + o)[1..] == o;
  }

  /** "--" ends a run, and is consumed. */
  lemma EndOfOptions(cfg: Config, argv: seq<string>, i: nat)
    requires i < |argv| && argv[i] == "--"
    ensures Reports(cfg, argv, i) == [] && Scan(cfg, argv, i) == Layout(["--"], [], i + 1, EndMarker)
  {
  }

  // ---- xdrc's own options ----------------------------------------------------

  const XDRC_TABLE := [
    LongOption("version", NoArgument, 0, 0x100), LongOption("help", NoArgument, 0, 0x101),
    LongOption("hh", NoArgument, 0, 0x102), LongOption("serverhh", NoArgument, 0, 0x103),
    LongOption("servercc", NoArgument, 0, 0x104), LongOption("ptr", NoArgument, 0, 'p' as int),
    LongOption("session", RequiredArgument, 0, 's' as int), LongOption("async", NoArgument, 0, 'a' as int),
    LongOption("pedantic", NoArgument, 0, 0x105)]

  /** "--session=T" and "-session=T" give xdrc the option 's' with the argument T. */
  lemma XdrcSession(argv: seq<string>, i: nat, t: string)
    requires i < |argv| && argv[i] in {"--session=" + t, "-session=" + t}
    ensures var cfg := Configure("D:ao:ps:", Some(XDRC_TABLE), true, true, false);
      Reports(cfg, argv, i) == [('s' as int, Some(t))] + Reports(cfg, argv, i + 1)
  {
    var cfg := Configure("D:ao:ps:", Some(XDRC_TABLE), true, true, false);
    assert cfg.longOptions == Some(XDRC_TABLE) && cfg.longOnly;
    assert FirstNamed(XDRC_TABLE, 6, "session");
    assert "session" + "=" + t == "session=" + t;
    assert "--" + ("session=" + t) == "--session=" + t && "-" + ("session=" + t) == "-session=" + t;
    hide Reports, Configure, LetterToo;
    LongWithValue(cfg, argv, i, "session", t, 6);
  }

  /** "-server" gives it '?', as it abbreviates two names. */
  lemma XdrcServer(argv: seq<string>, i: nat)
    requires i < |argv| && argv[i] == "-server"
    ensures var cfg := Configure("D:ao:ps:", Some(XDRC_TABLE), true, true, false);
      Reports(cfg, argv, i) == [('?' as int, None)] + Reports(cfg, argv, i + 1)
  {
    var cfg := Configure("D:ao:ps:", Some(XDRC_TABLE), true, true, false);
    assert cfg.longOptions == Some(XDRC_TABLE) && cfg.longOnly && cfg.options == "D:ao:ps:";
    assert Abbreviates(XDRC_TABLE, "server", 3, true) && Abbreviates(XDRC_TABLE, "server", 4, true);
    assert argv[i] == "-" + "server";
    hide Reports, Configure;
    LongUnknown(cfg, argv, i, "server", "server");
  }
}
