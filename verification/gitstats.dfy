/**
 The commit classifier and scorer of `scripts/gitstats.py`: the per-file work
 category, the weighted vote that picks a commit's category, the efficiency
 ratio, the file-type-weighted impact, and the record built for each commit.
 Git is an oracle: the commit's details and `--numstat` text are inputs, and
 the per-file history and diff queries are the functions of a `History`.
 */
module GitStats {
  import opened Wrappers
  import opened Strings
  import OrderedMap
  import Seqs

  /** The four work categories, in the declaration order of `category_weights`. */
  datatype Category = Refactor | NewWork | HelpOthers | ChurnRework {

    /** The name the script stores in the commit record. */
    function Label(): string {
      match this
      case Refactor => "Refactor"
      case NewWork => "New Work"
      case HelpOthers => "Help Others"
      case ChurnRework => "Churn/Rework"
    }

    /** Position in the declaration order, which decides ties. */
    function Rank(): nat {
      match this
      case Refactor => 0
      case NewWork => 1
      case HelpOthers => 2
      case ChurnRework => 3
    }

    /** The vote weight of `category_weights`. */
    function Weight(): nat {
      match this
      case Refactor => 8
      case NewWork => 6
      case HelpOthers => 5
      case ChurnRework => 4
    }

    /** The ratio weight of `calculate_efficiency`. */
    function EfficiencyWeight(): real {
      match this
      case Refactor => 0.9
      case NewWork => 0.7
      case HelpOthers => 0.6
      case ChurnRework => 0.5
    }
  }

  const Categories: seq<Category> := [Refactor, NewWork, HelpOthers, ChurnRework]

  /** Three weeks in seconds: older prior edits count as refactoring. */
  const RefactorThreshold: int := 3 * 7 * 24 * 60 * 60

  /** One row of `git show --numstat`. */
  datatype FileStat = FileStat(insertions: nat, deletions: nat, file: string)

  // ---------------------------------------------------------------------------
  // get_file_stats: the `--numstat` parser

  /** The line is two digit strings and a rest, tab-separated, read as counts and the
      rest's first field. */
  ghost predicate NumstatShaped(line: string, st: FileStat) {
    exists a, b, rest :: line == a + "\t" + b + "\t" + rest && IsDigits(a) && IsDigits(b)
      && st == FileStat(DigitsValue(a), DigitsValue(b), Split(rest, '\t')[0])
  }

  /** One line of `--numstat` output: kept when it is not blank, has at least three
      tab-separated fields, and its first two fields are digit strings. */
  function NumstatEntry(line: string): (e: Option<FileStat>)
    ensures e.Some? ==> NumstatShaped(line, e.value)
  {
    if Strip(line) == [] then None
    else
      var parts := Split(line, '\t');
      if |parts| >= 3 && IsDigits(parts[0]) && IsDigits(parts[1]) then
        NumstatShape(line);
        Some(FileStat(DigitsValue(parts[0]), DigitsValue(parts[1]), parts[2]))
      else None
  }

  /** A line of three or more fields is its first two fields, tab-separated, and the rest. */
  lemma NumstatShape(line: string)
    requires var parts := Split(line, '\t'); |parts| >= 3 && IsDigits(parts[0]) && IsDigits(parts[1])
    ensures var parts := Split(line, '\t');
      NumstatShaped(line, FileStat(DigitsValue(parts[0]), DigitsValue(parts[1]), parts[2]))
  {
    var parts := Split(line, '\t');
    var cut := SplitOnce(line, '\t').value;
    var a, r1 := cut.0, cut.1;
    SplitOfGlue(a, '\t', r1);
    var cut2 := SplitOnce(r1, '\t').value;
    var b, rest := cut2.0, cut2.1;
    SplitOfGlue(b, '\t', rest);
    ShapedOf(line, parts, a, b, rest);
  }

  lemma ShapedOf(line: string, parts: seq<string>, a: string, b: string, rest: string)
    requires parts == [a] + ([b] + Split(rest, '\t'))
    requires line == a + ['\t'] + (b + ['\t'] + rest)
    requires IsDigits(a) && IsDigits(b)
    ensures NumstatShaped(line, FileStat(DigitsValue(parts[0]), DigitsValue(parts[1]), parts[2]))
  {
    assert line == a + "\t" + b + "\t" + rest;
  }

  /** Two digit strings and any rest, tab-separated, form a kept row whose path is the
      rest up to its next tab. */
  lemma NumstatEntryOfFields(a: string, b: string, rest: string)
    requires IsDigits(a) && IsDigits(b)
    ensures NumstatEntry(a + "\t" + b + "\t" + rest)
      == Some(FileStat(DigitsValue(a), DigitsValue(b), Split(rest, '\t')[0]))
  {
    var line := a + "\t" + b + "\t" + rest;
    assert '\t' !in a && '\t' !in b by {
      DigitsAreNotBlank(a);
      DigitsAreNotBlank(b);
    }
    assert Split(line, '\t') == [a] + ([b] + Split(rest, '\t')) by {
      assert line == a + ['\t'] + (b + ['\t'] + rest);
      SplitOfGlue(a, '\t', b + ['\t'] + rest);
      SplitOfGlue(b, '\t', rest);
    }
    assert Strip(line) != [] by {
      assert line[0] == a[0] && !IsSpace(line[0]);
    }
    NumstatEntryOfParts(line, a, b, Split(rest, '\t'));
  }

  lemma NumstatEntryOfParts(line: string, a: string, b: string, tail: seq<string>)
    requires Strip(line) != [] && Split(line, '\t') == [a] + ([b] + tail) && |tail| > 0
    requires IsDigits(a) && IsDigits(b)
    ensures NumstatEntry(line) == Some(FileStat(DigitsValue(a), DigitsValue(b), tail[0]))
  {
  }

  /** A line is kept as `st` exactly when it is two digit strings and a rest, read as `st`. */
  lemma NumstatEntryExactly(line: string, st: FileStat)
    ensures NumstatEntry(line) == Some(st) <==> NumstatShaped(line, st)
  {
    if NumstatShaped(line, st) {
      var a, b, rest :| line == a + "\t" + b + "\t" + rest && IsDigits(a) && IsDigits(b)
        && st == FileStat(DigitsValue(a), DigitsValue(b), Split(rest, '\t')[0]);
      NumstatEntryOfFields(a, b, rest);
    }
  }

  /** The entries of the kept lines, in line order. */
  function KeepEntries(lines: seq<string>): (stats: seq<FileStat>)
    ensures |stats| <= |lines|
    decreases |lines|
  {
    if |lines| == 0 then []
    else
      KeepEntries(lines[..|lines| - 1]) + Kept(lines[|lines| - 1])
  }

  /** The entry of one line, as a list of zero or one rows. */
  function Kept(line: string): seq<FileStat> {
    match NumstatEntry(line) case None => [] case Some(st) => [st]
  }

  /** Each kept entry is the reading of one of the lines. */
  lemma {:induction false} KeepEntriesFrom(lines: seq<string>)
    ensures forall st :: st in KeepEntries(lines) ==> exists line :: line in lines && NumstatEntry(line) == Some(st)
    decreases |lines|
  {
    if |lines| > 0 {
      var init := lines[..|lines| - 1];
      KeepEntriesFrom(init);
      forall st | st in KeepEntries(lines) ensures exists line :: line in lines && NumstatEntry(line) == Some(st) {
        if st in KeepEntries(init) {
          var line :| line in init && NumstatEntry(line) == Some(st);
          assert line in lines;
        } else {
          assert NumstatEntry(lines[|lines| - 1]) == Some(st);
        }
      }
    }
  }

  /** Reading two blocks of lines one after the other keeps the rows of each, in order:
      the loop reads the lines front to back. */
  lemma {:induction false} KeepEntriesAppend(a: seq<string>, b: seq<string>)
    ensures KeepEntries(a + b) == KeepEntries(a) + KeepEntries(b)
    decreases |b|
  {
    if |b| == 0 {
      assert a + b == a;
    } else {
      var b0, last := b[..|b| - 1], b[|b| - 1];
      Seqs.LastSplit(b);
      Seqs.AppendAssoc(a, b0, [last]);
      KeepEntriesAppend(a, b0);
      KeepEntriesSnoc(a + b0, last);
      KeepEntriesSnoc(b0, last);
      Seqs.AppendAssoc(KeepEntries(a), KeepEntries(b0), Kept(last));
    }
  }

  lemma KeepEntriesSnoc(lines: seq<string>, line: string)
    ensures KeepEntries(lines + [line]) == KeepEntries(lines) + Kept(line)
  {
    assert (lines + [line])[..|lines|] == lines;
  }

  /** `get_file_stats` on the (stripped) output of `git show --numstat`. */
  function ParseNumstat(raw: string): (stats: seq<FileStat>)
    ensures forall st :: st in stats ==> exists line :: line in Split(raw, '\n') && NumstatEntry(line) == Some(st)
  {
    KeepEntriesFrom(Split(raw, '\n'));
    KeepEntries(Split(raw, '\n'))
  }

  /** The line git prints for a text file. */
  function NumstatLine(st: FileStat): string
  {
    NatToString(st.insertions) + "\t" + NatToString(st.deletions) + "\t" + st.file
  }

  function NumstatLines(stats: seq<FileStat>): (lines: seq<string>)
    ensures |lines| == |stats|
    ensures forall i :: 0 <= i < |stats| ==> lines[i] == NumstatLine(stats[i])
  {
    seq(|stats|, i requires 0 <= i < |stats| => NumstatLine(stats[i]))
  }

  /** A well-formed path has neither a tab nor a newline. */
  predicate PlainPath(path: string) {
    '\t' !in path && '\n' !in path
  }

  /** A text-file row is read back as the entry it was printed from. */
  lemma NumstatLineRoundTrip(st: FileStat)
    requires PlainPath(st.file)
    ensures NumstatEntry(NumstatLine(st)) == Some(st)
    ensures '\n' !in NumstatLine(st)
  {
    NumstatFields(NatToString(st.insertions), NatToString(st.deletions), st.file);
  }

  /** Two digit strings and a plain path, tab-separated, form one kept row. */
  lemma NumstatFields(a: string, b: string, path: string)
    requires IsDigits(a) && IsDigits(b) && PlainPath(path)
    ensures NumstatEntry(a + "\t" + b + "\t" + path) == Some(FileStat(DigitsValue(a), DigitsValue(b), path))
    ensures '\n' !in a + "\t" + b + "\t" + path
  {
    DigitsAreNotBlank(a);
    DigitsAreNotBlank(b);
    assert '\n' !in a && '\n' !in b && '\t' !in a && '\t' !in b;
    var line := a + "\t" + b + "\t" + path;
    assert '\n' !in line;
    SplitThreeFields(a, b, path);
    assert line[0] == a[0];
  }

  lemma SplitThreeFields(a: string, b: string, path: string)
    requires '\t' !in a && '\t' !in b && '\t' !in path
    ensures Split(a + "\t" + b + "\t" + path, '\t') == [a, b, path]
  {
    assert a + "\t" + b + "\t" + path == a + ['\t'] + (b + ['\t'] + path);
    SplitOfGlue(a, '\t', b + ['\t'] + path);
    SplitOfGlue(b, '\t', path);
    SplitWithoutSeparator(path, '\t');
  }

  /** A binary file's row (`-` counts) is dropped. */
  lemma BinaryRowDropped(path: string)
    ensures NumstatEntry("-\t-\t" + path) == None
  {
    var line := "-\t-\t" + path;
    assert line == "-" + ['\t'] + ("-\t" + path);
    SplitOfGlue("-", '\t', "-\t" + path);
  }

  lemma NumstatLinesInit(stats: seq<FileStat>)
    requires |stats| > 0
    ensures NumstatLines(stats)[..|stats| - 1] == NumstatLines(stats[..|stats| - 1])
  {
  }

  lemma KeepEntriesStep(lines: seq<string>, st: FileStat)
    requires |lines| > 0 && NumstatEntry(lines[|lines| - 1]) == Some(st)
    ensures KeepEntries(lines) == KeepEntries(lines[..|lines| - 1]) + [st]
  {
  }

  lemma {:induction false} KeepAllPrinted(stats: seq<FileStat>)
    requires forall i :: 0 <= i < |stats| ==> PlainPath(stats[i].file)
    ensures KeepEntries(NumstatLines(stats)) == stats
    decreases |stats|
  {
    if |stats| > 0 {
      var n := |stats|;
      var init := stats[..n - 1];
      var lines := NumstatLines(stats);
      KeepAllPrinted(init);
      NumstatLinesInit(stats);
      NumstatLineRoundTrip(stats[n - 1]);
      KeepEntriesStep(lines, stats[n - 1]);
      Seqs.LastSplit(stats);
    }
  }

  /** Parsing what git prints for text files gives back every row, in order. */
  lemma NumstatRoundTrip(stats: seq<FileStat>)
    requires forall i :: 0 <= i < |stats| ==> PlainPath(stats[i].file)
    ensures ParseNumstat(Join(NumstatLines(stats), "\n")) == stats
  {
    var lines := NumstatLines(stats);
    if |stats| == 0 {
      assert Split("", '\n') == [""];
    } else {
      forall i | 0 <= i < |lines| ensures '\n' !in lines[i] {
        NumstatLineRoundTrip(stats[i]);
      }
      SplitOfJoin(lines, '\n');
      KeepAllPrinted(stats);
    }
  }

  // ---------------------------------------------------------------------------
  // categorize_file

  /** The last author and date of a file before the commit, as `%an %ct` reports them. */
  datatype PriorState = PriorState(author: string, date: int)

  /** Reads the `"%an %ct"` line; `None` when the file counts as having no history:
      no output, no space, a date that is not an integer, an empty author or date 0. */
  function ParsePriorLog(log: Option<string>): (p: Option<PriorState>)
    ensures log.None? ==> p.None?
    ensures log.Some? && ' ' !in log.value ==> p.None?
    ensures p.Some? ==> p.value.author != [] && p.value.date != 0
  {
    if log.None? || log.value == [] then None
    else match RSplitOnce(log.value, ' ')
      case None => None
      case Some((left, right)) =>
        var author := Strip(left);
        match ParseInt(right)
        case None => None
        case Some(date) => if author == [] || date == 0 then None else Some(PriorState(author, date))
  }

  /** A history line printed from an author and a non-zero date reads back as both. */
  lemma PriorLogRoundTrip(author: string, date: int)
    requires author != [] && Strip(author) == author
    requires date != 0
    ensures ParsePriorLog(Some(author + " " + IntToString(date))) == Some(PriorState(author, date))
  {
    RSplitOnceOfGlue(author, ' ', IntToString(date));
    IntRoundTrip(date);
  }

  /** A line `<a> <d>` whose last space precedes `d` gives no history exactly when `d` is not
      an integer, `d` reads as 0, or `a` is blank; otherwise the stripped `a` and the date. */
  lemma PriorLogFields(a: string, d: string)
    requires ' ' !in d
    ensures ParsePriorLog(Some(a + " " + d)).None? <==> ParseInt(d).None? || ParseInt(d) == Some(0) || Strip(a) == []
    ensures ParsePriorLog(Some(a + " " + d)).Some? ==>
      ParsePriorLog(Some(a + " " + d)).value.author == Strip(a)
      && Some(ParsePriorLog(Some(a + " " + d)).value.date) == ParseInt(d)
  {
    RSplitOnceOfGlue(a, ' ', d);
  }

  /** Git as seen by the classifier. */
  datatype History = History(
    /** stripped output of `git log -1 --pretty=format:%an %ct <parent> -- <path>`; `None` when git fails */
    priorLog: (string, string) -> Option<string>,
    /** stripped output of `git diff --unified=0 <parent> <commit> -- <path>` */
    diff: (string, string, string) -> string)

  /** `parent_hashes[0]`, when there is a (non-empty) first parent. */
  function FirstParent(parents: seq<string>): (p: Option<string>)
    ensures p.Some? <==> |parents| > 0 && parents[0] != ""
    ensures p.Some? ==> p.value == parents[0]
  {
    if |parents| > 0 && parents[0] != "" then Some(parents[0]) else None
  }

  /** The file's last edit before the commit, read from the first parent; none for a root commit. */
  function PriorOf(h: History, path: string, parents: seq<string>): (p: Option<PriorState>)
    ensures |parents| == 0 ==> p.None?
    ensures p.Some? ==> p == ParsePriorLog(h.priorLog(parents[0], path))
    ensures FirstParent(parents).None? ==> p.None?
    ensures FirstParent(parents).Some? ==> p == ParsePriorLog(h.priorLog(parents[0], path))
  {
    match FirstParent(parents)
    case None => None
    case Some(p) => ParsePriorLog(h.priorLog(p, path))
  }

  predicate IsAddedLine(line: string) {
    StartsWith(line, "+") && !StartsWith(line, "+++")
  }

  predicate IsRemovedLine(line: string) {
    StartsWith(line, "-") && !StartsWith(line, "---")
  }

  /** The diff scan: (has_additions, has_deletions) after reading `lines` in order. */
  function ScanDiff(lines: seq<string>): (flags: (bool, bool))
    ensures flags.0 <==> exists i :: 0 <= i < |lines| && IsAddedLine(lines[i])
    ensures flags.1 <==> exists i :: 0 <= i < |lines| && IsRemovedLine(lines[i])
    decreases |lines|
  {
    if |lines| == 0 then (false, false)
    else
      var init := lines[..|lines| - 1];
      var flags := ScanDiff(init);
      var line := lines[|lines| - 1];
      assert forall i :: 0 <= i < |init| ==> lines[i] == init[i];
      if IsAddedLine(line) then (true, flags.1)
      else if IsRemovedLine(line) then (flags.0, true)
      else flags
  }

  /** The diff adds at least one line and removes none. */
  predicate PurelyAdditive(diff: string) {
    var lines := Split(diff, '\n');
    (exists i :: 0 <= i < |lines| && IsAddedLine(lines[i]))
    && !(exists i :: 0 <= i < |lines| && IsRemovedLine(lines[i]))
  }

  /** The verdict of the diff scan: additions seen and no deletion seen. */
  function ScanSaysAdditive(diff: string): (b: bool)
    ensures b <==> PurelyAdditive(diff)
  {
    var flags := ScanDiff(Split(diff, '\n'));
    flags.0 && !flags.1
  }

  /** `categorize_file`: the category of one file of the commit `hash`. */
  function CategorizeFile(h: History, stat: FileStat, author: string, date: int, hash: string,
                          parents: seq<string>): (c: Category)
    ensures PriorOf(h, stat.file, parents).None? ==> c == NewWork
    ensures PriorOf(h, stat.file, parents).Some? ==>
      var prior := PriorOf(h, stat.file, parents).value;
      && (date - prior.date > RefactorThreshold ==>
            (c == Refactor <==> stat.insertions + stat.deletions > 10)
            && (c == Refactor || c == ChurnRework))
      && (date - prior.date <= RefactorThreshold && prior.author != author ==> c == HelpOthers)
      && (date - prior.date <= RefactorThreshold && prior.author == author ==>
            (c == NewWork <==> PurelyAdditive(h.diff(FirstParent(parents).value, hash, stat.file)))
            && (c == NewWork || c == ChurnRework))
  {
    match PriorOf(h, stat.file, parents)
    case None => NewWork
    case Some(prior) =>
      if date - prior.date > RefactorThreshold then
        if stat.insertions + stat.deletions > 10 then Refactor else ChurnRework
      else if prior.author != author then HelpOthers
      else
        if ScanSaysAdditive(h.diff(FirstParent(parents).value, hash, stat.file)) then NewWork else ChurnRework
  }

  /** A prior edit exactly three weeks old is still recent: another author's file is help. */
  lemma ThresholdAgeIsRecent(h: History, stat: FileStat, author: string, date: int, hash: string,
                             parents: seq<string>)
    requires PriorOf(h, stat.file, parents).Some?
    requires PriorOf(h, stat.file, parents).value.date == date - RefactorThreshold
    requires PriorOf(h, stat.file, parents).value.author != author
    ensures CategorizeFile(h, stat, author, date, hash, parents) == HelpOthers
  {
  }

  /** A root commit has no parent to ask about: every file it touches is new work. */
  lemma RootCommitIsNewWork(h: History, stat: FileStat, author: string, date: int, hash: string)
    ensures CategorizeFile(h, stat, author, date, hash, []) == NewWork
  {
  }

  // ---------------------------------------------------------------------------
  // determine_commit_category

  /** `counts.get(c, 0)`. */
  function CountOf(counts: map<Category, nat>, c: Category): nat {
    if c in counts then counts[c] else 0
  }

  function Weighted(counts: map<Category, nat>, c: Category): nat {
    CountOf(counts, c) * c.Weight()
  }

  /** `max(..., key=...)` over `cats`: the index of the first item of greatest weight. */
  function FirstMaxIndex(counts: map<Category, nat>, cats: seq<Category>): (k: nat)
    requires |cats| > 0
    ensures k < |cats|
    ensures forall j :: 0 <= j < |cats| ==> Weighted(counts, cats[j]) <= Weighted(counts, cats[k])
    ensures forall j :: 0 <= j < k ==> Weighted(counts, cats[j]) < Weighted(counts, cats[k])
    decreases |cats|
  {
    if |cats| == 1 then 0
    else
      var b := FirstMaxIndex(counts, cats[..|cats| - 1]);
      assert forall j :: 0 <= j < |cats| - 1 ==> cats[j] == cats[..|cats| - 1][j];
      if Weighted(counts, cats[|cats| - 1]) > Weighted(counts, cats[b]) then |cats| - 1 else b
  }

  /** `c` has the greatest weighted count, and every category declared before it has less. */
  predicate IsFirstMax(counts: map<Category, nat>, c: Category) {
    && (forall d: Category :: Weighted(counts, d) <= Weighted(counts, c))
    && (forall d: Category :: d.Rank() < c.Rank() ==> Weighted(counts, d) < Weighted(counts, c))
  }

  /** `determine_commit_category`. */
  function DetermineCommitCategory(counts: map<Category, nat>): (c: Category)
    ensures IsFirstMax(counts, c)
  {
    var k := FirstMaxIndex(counts, Categories);
    var c := Categories[k];
    assert IsFirstMax(counts, c) by {
      assert forall j :: 0 <= j < |Categories| ==> Categories[j].Rank() == j;
      forall d: Category
        ensures Weighted(counts, d) <= Weighted(counts, c)
        ensures d.Rank() < c.Rank() ==> Weighted(counts, d) < Weighted(counts, c)
      {
        assert Categories[d.Rank()] == d;
      }
    }
    c
  }

  /** The weighted maximum with its tie-break names exactly one category. */
  lemma FirstMaxIsUnique(counts: map<Category, nat>, c: Category)
    requires IsFirstMax(counts, c)
    ensures DetermineCommitCategory(counts) == c
  {
    var r := DetermineCommitCategory(counts);
    assert Weighted(counts, r) == Weighted(counts, c);
    assert r.Rank() == c.Rank();
  }

  /** With no files counted every weight is 0, and the tie goes to `Refactor`. */
  lemma AllZeroIsRefactor()
    ensures DetermineCommitCategory(map[]) == Refactor
  {
    FirstMaxIsUnique(map[], Refactor);
  }

  /** Two Churn/Rework files against one Refactor file weigh 8 each: Refactor wins the tie. */
  lemma ChurnTieGoesToRefactor()
    ensures DetermineCommitCategory(map[ChurnRework := 2, Refactor := 1]) == Refactor
  {
    FirstMaxIsUnique(map[ChurnRework := 2, Refactor := 1], Refactor);
  }

  // ---------------------------------------------------------------------------
  // calculate_efficiency (before rounding to two decimals)

  /** `calculate_efficiency`: the insertion share of the change, scaled by the category weight. */
  function CalculateEfficiency(c: Category, insertions: nat, deletions: nat): (e: real)
    ensures insertions + deletions == 0 ==> e == 0.0
    ensures 0.0 <= e <= 100.0 * c.EfficiencyWeight()
    ensures e == 0.0 <==> insertions == 0
    ensures insertions > 0 ==> (e == 100.0 * c.EfficiencyWeight() <==> deletions == 0)
    ensures insertions + deletions > 0 ==>
      e * (insertions + deletions) as real == 100.0 * c.EfficiencyWeight() * insertions as real
  {
    var total := insertions + deletions;
    if total == 0 then 0.0
    else
      var share := insertions as real / total as real;
      assert share <= 1.0;
      assert share == 1.0 <==> deletions == 0;
      ShareTimesTotal(insertions as real, total as real, c.EfficiencyWeight() * 100.0);
      share * c.EfficiencyWeight() * 100.0
  }

  lemma ShareTimesTotal(i: real, t: real, k: real)
    requires t > 0.0
    ensures (i / t) * k * t == k * i
  {
    assert (i / t) * t == i;
    assert (i / t) * k * t == k * ((i / t) * t);
  }

  /** More insertions against the same deletions never lower the efficiency. */
  lemma EfficiencyGrowsWithInsertions(c: Category, i1: nat, i2: nat, deletions: nat)
    requires 0 < i1 <= i2
    ensures CalculateEfficiency(c, i1, deletions) <= CalculateEfficiency(c, i2, deletions)
  {
    var t1 := (i1 + deletions) as real;
    var t2 := (i2 + deletions) as real;
    var x := i1 as real / t1;
    var y := i2 as real / t2;
    assert i1 as real * t2 <= i2 as real * t1;
    assert y - x == (i2 as real * t1 - i1 as real * t2) / (t1 * t2);
    assert x <= y;
    assert x * c.EfficiencyWeight() <= y * c.EfficiencyWeight();
  }

  /** For the same change, a category declared earlier scores at least as high. */
  lemma EfficiencyFollowsDeclarationOrder(c1: Category, c2: Category, insertions: nat, deletions: nat)
    requires c1.Rank() <= c2.Rank()
    ensures CalculateEfficiency(c1, insertions, deletions) >= CalculateEfficiency(c2, insertions, deletions)
  {
  }

  // ---------------------------------------------------------------------------
  // calculate_commit_impact

  const DocumentExtensions: set<string> := {
    "doc", "docx", "ebook", "log", "md", "msg", "odt", "org", "pages", "pdf", "rtf", "rst", "tex",
    "txt", "wpd", "wps"}

  const CodeExtensions: set<string> := {
    "1.ada", "2.ada", "ada", "adb", "ads", "asm", "bas", "bash", "bat", "c", "c++", "cbl", "cc",
    "class", "clj", "cob", "cpp", "cs", "csh", "cxx", "d", "diff", "e", "el", "f", "f77", "f90",
    "fish", "for", "fth", "ftn", "go", "groovy", "h", "hh", "hpp", "hs", "html", "htm", "hxx",
    "java", "js", "jsx", "jsp", "ksh", "kt", "lhs", "lisp", "lua", "m", "m4", "nim", "patch", "php",
    "pl", "po", "pp", "py", "r", "rb", "rs", "s", "scala", "sh", "sql", "swg", "swift", "v", "vb",
    "vcxproj", "xcodeproj", "xml", "zsh"}

  /** The "config" list, which repeats the document list entry for entry. */
  const ConfigExtensions: set<string> := {
    "doc", "docx", "ebook", "log", "md", "msg", "odt", "org", "pages", "pdf", "rtf", "rst", "tex",
    "txt", "wpd", "wps"}

  /** The three extension lists of `calculate_commit_impact`, checked in this order. */
  datatype ExtensionTable = ExtensionTable(documents: set<string>, config: set<string>, code: set<string>)

  const Extensions: ExtensionTable := ExtensionTable(DocumentExtensions, ConfigExtensions, CodeExtensions)

  /** Every "config" extension is also a document extension, so the document test always wins. */
  predicate ConfigShadowed(t: ExtensionTable) {
    t.config <= t.documents
  }

  /** The script's own lists: the config list repeats the document list. */
  lemma ScriptTableShadowsConfig()
    ensures ConfigShadowed(Extensions)
    ensures Extensions.config == Extensions.documents
  {
  }

  /** The lower-cased text after the last `.`, or `""` when the path has none. */
  function Extension(path: string): (ext: string)
    ensures '.' !in ext
    ensures '.' !in path ==> ext == ""
    ensures '.' in path ==>
      exists i :: 0 <= i < |path| && path[i] == '.' && '.' !in path[i + 1..] && ext == Lower(path[i + 1..])
  {
    match LastIndex(path, '.')
    case None => ""
    case Some(i) =>
      var ext := Lower(path[i + 1..]);
      assert forall j :: 0 <= j < |ext| ==> ext[j] != '.' by {
        forall j | 0 <= j < |ext| ensures ext[j] != '.' {
          assert path[i + 1..][j] in path[i + 1..];
        }
      }
      ext
  }

  /** A name `stem.ext` whose `ext` holds no dot has the extension `ext`, lower-cased. */
  lemma ExtensionOfName(stem: string, ext: string)
    requires '.' !in ext
    ensures Extension(stem + "." + ext) == Lower(ext)
  {
    var path := stem + "." + ext;
    assert path == stem + ['.'] + ext;
    LastIndexBefore(stem, '.', ext);
    assert path[|stem| + 1..] == ext;
  }

  /** The per-file weight of `calculate_commit_impact`: one of the three weights, and the
      document weight whenever the extension is a document extension. */
  function ImpactWeight(t: ExtensionTable, path: string): (w: real)
    ensures w == 0.3 || w == 0.6 || w == 0.7
    ensures Extension(path) in t.documents ==> w == 0.3
  {
    var ext := Extension(path);
    if ext in t.documents then 0.3
    else if ext in t.config then 0.7
    else if ext in t.code then 0.6
    else 0.3
  }

  /** When the config list is shadowed, code files weigh 0.6 and every other file 0.3:
      the 0.7 "config" weight is never used. */
  lemma ImpactWeightCases(t: ExtensionTable, path: string)
    requires ConfigShadowed(t)
    ensures ImpactWeight(t, path) == 0.6 <==> Extension(path) in t.code && Extension(path) !in t.documents
    ensures ImpactWeight(t, path) != 0.6 ==> ImpactWeight(t, path) == 0.3
  {
  }

  /** The dotted entries of the code list can never match: an extension holds no `.`. */
  lemma DottedCodeEntriesUnreachable(path: string)
    ensures Extension(path) != "1.ada" && Extension(path) != "2.ada"
  {
    assert "1.ada"[1] == '.' && "2.ada"[1] == '.';
  }

  /** The weight the script gives each path, with its own extension lists. */
  function ScriptWeight(path: string): (w: real)
    ensures w == 0.3 || w == 0.6
    ensures w == 0.6 <==> Extension(path) in CodeExtensions && Extension(path) !in DocumentExtensions
  {
    ScriptTableShadowsConfig();
    ImpactWeightCases(Extensions, path);
    ImpactWeight(Extensions, path)
  }

  /** A per-file weight that stays between the script's two reachable weights. */
  ghost predicate WeightInRange(weight: string -> real) {
    forall path :: 0.3 <= weight(path) <= 0.6
  }

  lemma ScriptWeightInRange()
    ensures WeightInRange(ScriptWeight)
  {
  }

  function FileImpact(weight: string -> real, st: FileStat): real {
    (st.insertions + st.deletions) as real * weight(st.file)
  }

  function TotalChanges(stats: seq<FileStat>): nat
    decreases |stats|
  {
    if |stats| == 0 then 0
    else TotalChanges(stats[..|stats| - 1]) + stats[|stats| - 1].insertions + stats[|stats| - 1].deletions
  }

  /** Σ (insertions + deletions) × weight over the files. */
  function WeightedVolume(weight: string -> real, stats: seq<FileStat>): real
    decreases |stats|
  {
    if |stats| == 0 then 0.0
    else WeightedVolume(weight, stats[..|stats| - 1]) + FileImpact(weight, stats[|stats| - 1])
  }

  /** Every changed line weighs between 0.3 and 0.6. */
  lemma {:induction false} WeightedVolumeBounds(weight: string -> real, stats: seq<FileStat>)
    requires WeightInRange(weight)
    ensures 0.3 * TotalChanges(stats) as real <= WeightedVolume(weight, stats) <= 0.6 * TotalChanges(stats) as real
    decreases |stats|
  {
    if |stats| > 0 {
      var init, last := stats[..|stats| - 1], stats[|stats| - 1];
      WeightedVolumeBounds(weight, init);
      AddBounds(TotalChanges(init), WeightedVolume(weight, init), last.insertions + last.deletions, weight(last.file));
    }
  }

  lemma AddBounds(c: nat, v: real, n: nat, w: real)
    requires 0.3 * c as real <= v <= 0.6 * c as real
    requires 0.3 <= w <= 0.6
    ensures 0.3 * (c + n) as real <= v + n as real * w <= 0.6 * (c + n) as real
  {
  }

  /** The volume of two groups of files is the sum of their volumes. */
  lemma {:induction false} WeightedVolumeAppend(weight: string -> real, a: seq<FileStat>, b: seq<FileStat>)
    ensures WeightedVolume(weight, a + b) == WeightedVolume(weight, a) + WeightedVolume(weight, b)
    decreases |b|
  {
    if |b| == 0 {
      assert a + b == a;
    } else {
      var b0, last := b[..|b| - 1], b[|b| - 1];
      Seqs.LastSplit(b);
      assert a + b == (a + b0) + [last];
      WeightedVolumeSnoc(weight, a + b0, last);
      WeightedVolumeSnoc(weight, b0, last);
      WeightedVolumeAppend(weight, a, b0);
    }
  }

  lemma WeightedVolumeSnoc(weight: string -> real, stats: seq<FileStat>, st: FileStat)
    ensures WeightedVolume(weight, stats + [st]) == WeightedVolume(weight, stats) + FileImpact(weight, st)
  {
    assert (stats + [st])[..|stats|] == stats;
  }

  lemma WeightedVolumeStep(weight: string -> real, stats: seq<FileStat>, i: nat)
    requires i < |stats|
    ensures WeightedVolume(weight, stats[..i + 1]) == WeightedVolume(weight, stats[..i]) + FileImpact(weight, stats[i])
  {
    assert stats[..i + 1][..i] == stats[..i];
  }

  /** The raw impact: the weighted volume, amplified by (1 + number of files). */
  function RawImpact(weight: string -> real, stats: seq<FileStat>): (raw: real)
    ensures |stats| == 0 ==> raw == 0.0
  {
    (1 + |stats|) as real * WeightedVolume(weight, stats)
  }

  /** The raw impact lies between 0.3 and 0.6 per changed line, times (1 + number of files). */
  lemma RawImpactBounds(weight: string -> real, stats: seq<FileStat>)
    requires WeightInRange(weight)
    ensures 0.3 * ((1 + |stats|) * TotalChanges(stats)) as real <= RawImpact(weight, stats)
    ensures RawImpact(weight, stats) <= 0.6 * ((1 + |stats|) * TotalChanges(stats)) as real
  {
    WeightedVolumeBounds(weight, stats);
    Scale(1 + |stats|, TotalChanges(stats), WeightedVolume(weight, stats));
  }

  lemma Scale(k: nat, c: nat, v: real)
    requires 0.3 * c as real <= v <= 0.6 * c as real
    ensures 0.3 * (k * c) as real <= k as real * v <= 0.6 * (k * c) as real
  {
    assert (k * c) as real == k as real * c as real;
  }

  lemma Amplify(v: real, n: nat)
    ensures v + n as real * v == (1 + n) as real * v
  {
  }

  /** The summing loop of `calculate_commit_impact`. */
  method SumFileImpacts(weight: string -> real, stats: seq<FileStat>) returns (total: real)
    ensures total == WeightedVolume(weight, stats)
  {
    total := 0.0;
    for i := 0 to |stats|
      invariant total == WeightedVolume(weight, stats[..i])
    {
      WeightedVolumeStep(weight, stats, i);
      total := total + FileImpact(weight, stats[i]);
    }
    assert stats[..|stats|] == stats;
  }

  /** The raw impact as `calculate_commit_impact` computes it: the sum, then `+= len(files) * sum`. */
  method CalculateRawImpact(weight: string -> real, stats: seq<FileStat>) returns (raw: real)
    ensures raw == RawImpact(weight, stats)
  {
    raw := SumFileImpacts(weight, stats);
    Amplify(raw, |stats|);
    raw := raw + |stats| as real * raw;
  }

  lemma FileImpactNonNegative(weight: string -> real, st: FileStat)
    requires WeightInRange(weight)
    ensures FileImpact(weight, st) >= 0.0
  {
    var w := weight(st.file);
    assert w >= 0.3;
    NonNegativeProduct((st.insertions + st.deletions) as real, w);
  }

  lemma NonNegativeProduct(a: real, b: real)
    requires a >= 0.0 && b >= 0.0
    ensures a * b >= 0.0
  {
  }

  lemma Grow(v: real, w: real, n: nat)
    requires 0.0 <= v <= w
    ensures (1 + n) as real * v <= (2 + n) as real * w
  {
    assert (1 + n) as real * v <= (1 + n) as real * w;
  }

  /** Touching one more file never lowers the raw impact. */
  lemma RawImpactGrowsWithFiles(weight: string -> real, stats: seq<FileStat>, st: FileStat)
    requires WeightInRange(weight)
    ensures RawImpact(weight, stats) <= RawImpact(weight, stats + [st])
  {
    var s := stats + [st];
    assert s[..|s| - 1] == stats;
    WeightedVolumeBounds(weight, stats);
    FileImpactNonNegative(weight, st);
    Grow(WeightedVolume(weight, stats), WeightedVolume(weight, s), |stats|);
  }

  /** The logistic normalisation `1 + 99 / (1 + e)`, where `e > 0` stands for
      `exp(-0.01 * (raw - 500))`, before rounding to one decimal. */
  function NormalizeImpact(e: real): (score: real)
    requires e > 0.0
    ensures 1.0 < score < 100.0
  {
    1.0 + 99.0 / (1.0 + e)
  }

  /** A smaller exponential term (a larger raw impact) never gives a smaller score. */
  lemma NormalizeImpactMonotone(e1: real, e2: real)
    requires 0.0 < e1 <= e2
    ensures NormalizeImpact(e2) <= NormalizeImpact(e1)
  {
    assert 99.0 / (1.0 + e2) <= 99.0 / (1.0 + e1);
  }

  // ---------------------------------------------------------------------------
  // process_commit

  /** The fields `get_commit_details` reads from git (author before alias substitution). */
  datatype CommitDetails = CommitDetails(author: string, email: string, date: int, message: string,
                                         parents: seq<string>)

  /** The record sent to the index (dates, project and repository names left out). */
  datatype CommitDoc = CommitDoc(
    sha: string, author: string, email: string, commitDate: int, message: string,
    totalFilesChanged: nat, insertions: nat, deletions: nat, category: Category,
    efficiency: real, rawImpact: real, files: seq<FileStat>)

  /** The alias substitution of `get_commit_details`: the stripped author name is looked up. */
  function ResolveAuthor(author: string, users: seq<(string, string)>): (r: string)
    ensures (forall i :: 0 <= i < |users| ==> users[i].0 != Strip(author)) ==> r == author
    ensures (exists i :: 0 <= i < |users| && users[i].0 == Strip(author)) ==>
      exists i :: 0 <= i < |users| && users[i] == (Strip(author), r)
  {
    OrderedMap.Get(users, Strip(author)).GetOr(author)
  }

  /** The category of every file, in file order. */
  function CategorizeFiles(h: History, stats: seq<FileStat>, author: string, date: int, hash: string,
                           parents: seq<string>): (cats: seq<Category>)
    ensures |cats| == |stats|
    ensures forall i :: 0 <= i < |stats| ==> cats[i] == CategorizeFile(h, stats[i], author, date, hash, parents)
  {
    seq(|stats|, i requires 0 <= i < |stats| => CategorizeFile(h, stats[i], author, date, hash, parents))
  }

  /** The `defaultdict(int)` of per-category file counts. */
  function Tally(cats: seq<Category>): (counts: map<Category, nat>)
    ensures forall c: Category :: CountOf(counts, c) == multiset(cats)[c]
    decreases |cats|
  {
    if |cats| == 0 then map[]
    else
      var init := cats[..|cats| - 1];
      var last := cats[|cats| - 1];
      var m := Tally(init);
      assert cats == init + [last];
      m[last := CountOf(m, last) + 1]
  }

  /** The four category counts add up to the number of files. */
  lemma {:induction false} TallyAddsUp(cats: seq<Category>)
    ensures var t := Tally(cats);
      CountOf(t, Refactor) + CountOf(t, NewWork) + CountOf(t, HelpOthers) + CountOf(t, ChurnRework) == |cats|
    decreases |cats|
  {
    if |cats| > 0 {
      var init := cats[..|cats| - 1];
      var last := cats[|cats| - 1];
      TallyAddsUp(init);
      assert cats == init + [last];
      assert multiset(cats) == multiset(init) + multiset{last};
      var t0 := Tally(init);
      var t := Tally(cats);
      assert CountOf(t, Refactor) == CountOf(t0, Refactor) + (if last == Refactor then 1 else 0);
      assert CountOf(t, NewWork) == CountOf(t0, NewWork) + (if last == NewWork then 1 else 0);
      assert CountOf(t, HelpOthers) == CountOf(t0, HelpOthers) + (if last == HelpOthers then 1 else 0);
      assert CountOf(t, ChurnRework) == CountOf(t0, ChurnRework) + (if last == ChurnRework then 1 else 0);
    }
  }

  function SumInsertions(stats: seq<FileStat>): nat
    decreases |stats|
  {
    if |stats| == 0 then 0 else SumInsertions(stats[..|stats| - 1]) + stats[|stats| - 1].insertions
  }

  function SumDeletions(stats: seq<FileStat>): nat
    decreases |stats|
  {
    if |stats| == 0 then 0 else SumDeletions(stats[..|stats| - 1]) + stats[|stats| - 1].deletions
  }

  /** `process_commit`: `None` for merges and for commits without file rows, otherwise the record. */
  function ProcessCommit(hash: string, details: CommitDetails, numstat: string, h: History,
                         users: seq<(string, string)>): (doc: Option<CommitDoc>)
    ensures doc.None? <==> |details.parents| >= 2 || ParseNumstat(numstat) == []
    ensures doc.Some? ==>
      var d := doc.value;
      var stats := ParseNumstat(numstat);
      var author := ResolveAuthor(details.author, users);
      && d.sha == hash && d.author == author && d.email == details.email
      && d.commitDate == details.date && d.message == details.message
      && d.files == stats
      && d.totalFilesChanged == |stats|
      && d.insertions == SumInsertions(stats)
      && d.deletions == SumDeletions(stats)
      && d.insertions + d.deletions == TotalChanges(stats)
      && IsFirstMax(Tally(CategorizeFiles(h, stats, author, details.date, hash, details.parents)), d.category)
      && 0.0 <= d.efficiency <= 100.0 * d.category.EfficiencyWeight()
      && d.efficiency == CalculateEfficiency(d.category, d.insertions, d.deletions)
      && d.rawImpact == RawImpact(ScriptWeight, stats)
  {
    if |details.parents| >= 2 then None
    else
      var stats := ParseNumstat(numstat);
      if stats == [] then None
      else
        var author := ResolveAuthor(details.author, users);
        var cats := CategorizeFiles(h, stats, author, details.date, hash, details.parents);
        var category := DetermineCommitCategory(Tally(cats));
        var insertions := SumInsertions(stats);
        var deletions := SumDeletions(stats);
        SumsAddUp(stats);
        Some(CommitDoc(hash, author, details.email, details.date, details.message,
                       |stats|, insertions, deletions, category,
                       CalculateEfficiency(category, insertions, deletions),
                       RawImpact(ScriptWeight, stats), stats))
  }

  lemma {:induction false} SumsAddUp(stats: seq<FileStat>)
    ensures SumInsertions(stats) + SumDeletions(stats) == TotalChanges(stats)
    decreases |stats|
  {
    if |stats| > 0 {
      SumsAddUp(stats[..|stats| - 1]);
    }
  }

  /** The per-category counts of a processed commit add up to its number of files. */
  lemma ProcessedCountsAddUp(hash: string, details: CommitDetails, numstat: string, h: History,
                             users: seq<(string, string)>)
    requires ProcessCommit(hash, details, numstat, h, users).Some?
    ensures var d := ProcessCommit(hash, details, numstat, h, users).value;
      var t := Tally(CategorizeFiles(h, d.files, d.author, details.date, hash, details.parents));
      CountOf(t, Refactor) + CountOf(t, NewWork) + CountOf(t, HelpOthers) + CountOf(t, ChurnRework)
        == d.totalFilesChanged
  {
    var d := ProcessCommit(hash, details, numstat, h, users).value;
    TallyAddsUp(CategorizeFiles(h, d.files, d.author, details.date, hash, details.parents));
  }

  /**
   The commit author is substituted before classification, while the history line
   carries git's own author name: a mapped author's own recent edit counts as help.
   */
  lemma MappedAuthorOwnEditIsHelp(h: History, stat: FileStat, author: string, date: int, hash: string,
                                  parents: seq<string>, users: seq<(string, string)>)
    requires PriorOf(h, stat.file, parents).Some?
    requires PriorOf(h, stat.file, parents).value.author == author
    requires date - PriorOf(h, stat.file, parents).value.date <= RefactorThreshold
    requires ResolveAuthor(author, users) != author
    ensures CategorizeFile(h, stat, ResolveAuthor(author, users), date, hash, parents) == HelpOthers
  {
  }

  // ---------------------------------------------------------------------------
  // load_users

  /** One line of the users file, `Author Name-Alias`: the entry `alias -> author`. */
  function UserEntry(line: string): (e: Option<(string, string)>)
    ensures e.None? <==> '-' !in line
    ensures e.Some? ==> '-' !in e.value.1
  {
    assert '-' in line ==> '-' in Strip(line) by {
      if '-' in line {
        StripKeeps(line, '-');
      }
    }
    var t := Strip(line);
    if t == [] then None
    else match SplitOnce(t, '-')
      case None => None
      case Some((name, alias)) => Some((Strip(alias), Strip(name)))
  }

  /** `load_users` over the lines of the file: each alias once, each mapped to a dash-free name. */
  function LoadUsers(lines: seq<string>): (users: seq<(string, string)>)
    ensures OrderedMap.DistinctKeys(users)
    ensures forall i :: 0 <= i < |users| ==> '-' !in users[i].1
  {
    OrderedMap.CollectEntries(lines, UserEntry);
    OrderedMap.Collect(lines, UserEntry)
  }

  /** A line written as `name-alias` yields `alias -> name`; the alias may itself hold `-`. */
  lemma UserLineRoundTrip(name: string, alias: string)
    requires Strip(name) == name && Strip(alias) == alias
    requires '-' !in name
    ensures UserEntry(name + "-" + alias) == Some((alias, name))
  {
    var line := name + "-" + alias;
    assert line == name + ['-'] + alias;
    assert Strip(line) == line by {
      GlueEnds(name, '-', alias);
      StripUnchanged(line);
    }
    SplitOnceOfGlue(name, '-', alias);
  }

  /** Every users-file line with a dash: the name is the stripped text before the first
      dash, and the alias the stripped text after it. */
  lemma UserEntryOfLine(line: string, a: string, b: string)
    requires Strip(line) == a + "-" + b && '-' !in a
    ensures UserEntry(line) == Some((Strip(b), Strip(a)))
  {
    assert Strip(line) == a + ['-'] + b;
    SplitOnceOfGlue(a, '-', b);
  }

  /** The first and last characters of `a + [c] + b`. */
  lemma GlueEnds(a: string, c: char, b: string)
    ensures (a + [c] + b)[0] == (if a == [] then c else a[0])
    ensures (a + [c] + b)[|a| + |b|] == (if b == [] then c else b[|b| - 1])
  {
  }

  /** The alias maps to the author of the last line naming it, and is absent when no line does. */
  lemma LoadUsersLastWins(lines: seq<string>, alias: string)
    ensures OrderedMap.LastYield(lines, UserEntry, alias).None? ==> OrderedMap.Get(LoadUsers(lines), alias).None?
    ensures OrderedMap.LastYield(lines, UserEntry, alias).Some? ==>
      OrderedMap.Get(LoadUsers(lines), alias)
        == Some(UserEntry(lines[OrderedMap.LastYield(lines, UserEntry, alias).value]).value.1)
  {
    OrderedMap.CollectLastWins(lines, UserEntry, alias);
  }

  /** The author of a commit is replaced by the name on the last users-file line whose
      alias is the stripped author, and kept when no line names it. */
  lemma ResolveWithUsersFile(author: string, lines: seq<string>)
    ensures OrderedMap.LastYield(lines, UserEntry, Strip(author)).None? ==>
      ResolveAuthor(author, LoadUsers(lines)) == author
    ensures OrderedMap.LastYield(lines, UserEntry, Strip(author)).Some? ==>
      ResolveAuthor(author, LoadUsers(lines))
        == UserEntry(lines[OrderedMap.LastYield(lines, UserEntry, Strip(author)).value]).value.1
  {
    LoadUsersLastWins(lines, Strip(author));
  }
}
