/**
 * The parsing and normalisation helpers of `scripts/dora-metrics.py`: the
 * `Team Name-Developer Name` teams file and the lookup of a developer's team,
 * the extraction of product names from the `#ÜRÜN_<name>(<id>)` tags of a
 * release row, and the conversion of a `HH:MM:SS` lead time into minutes,
 * hours and days.
 */
module Dora {
  import opened Wrappers
  import opened Strings
  import OrderedMap
  import Seqs

  /** The team reported for a developer nobody mapped. */
  const NoTeam: string := "Non"

  /** The product reported for a row without product tags. */
  const NoProduct: string := "non"

  // ---------------------------------------------------------------------------
  // load_teams_mapping / get_team_for_developer
  // ---------------------------------------------------------------------------

  /** One line of the teams file: `team-developer`, split at the LAST dash,
      giving `developer -> team` when both halves are non-blank. */
  function TeamEntry(line: string): (e: Option<(string, string)>)
    ensures e.Some? ==> e.value.0 != [] && e.value.1 != []
    ensures e.Some? ==> '-' !in e.value.0
    ensures '-' !in line ==> e.None?
  {
    var t := Strip(line);
    if t == [] then None
    else match RSplitOnce(t, '-')
      case None => None
      case Some((team, developer)) =>
        var teamName, developerName := Strip(team), Strip(developer);
        if teamName != [] && developerName != [] then Some((developerName, teamName)) else None
  }

  /** `load_teams_mapping` over the lines of the teams file: each developer once, with a
      non-blank, dash-free developer name and a non-blank team. */
  function LoadTeamsMapping(lines: seq<string>): (m: seq<(string, string)>)
    ensures OrderedMap.DistinctKeys(m)
    ensures forall i :: 0 <= i < |m| ==> m[i].0 != [] && m[i].1 != [] && '-' !in m[i].0
    ensures OrderedMap.InFirstYieldOrder(lines, TeamEntry, m)
  {
    OrderedMap.CollectEntries(lines, TeamEntry);
    OrderedMap.CollectInFirstYieldOrder(lines, TeamEntry);
    OrderedMap.Collect(lines, TeamEntry)
  }

  /** Every teams-file line with a dash: split at the last dash, it maps the stripped
      developer to the stripped team, or nothing when either is blank. */
  lemma TeamEntryOfLine(line: string, a: string, b: string)
    requires Strip(line) == a + "-" + b && '-' !in b
    ensures TeamEntry(line) == if Strip(a) != [] && Strip(b) != [] then Some((Strip(b), Strip(a))) else None
  {
    assert Strip(line) == a + ['-'] + b;
    RSplitOnceOfGlue(a, '-', b);
  }

  /** A line written as `team-developer` maps the developer to the team, even when the team name holds dashes. */
  lemma TeamLineRoundTrip(team: string, developer: string)
    requires team != [] && Strip(team) == team
    requires developer != [] && Strip(developer) == developer
    requires '-' !in developer
    ensures TeamEntry(team + "-" + developer) == Some((developer, team))
  {
    var line := team + "-" + developer;
    assert line == team + ['-'] + developer;
    assert Strip(line) == line by {
      assert line[0] == team[0];
      assert line[|line| - 1] == developer[|developer| - 1];
      StripUnchanged(line);
    }
    RSplitOnceOfGlue(team, '-', developer);
  }

  /** A developer maps to the team of the last line naming them, and is absent when no line does. */
  lemma LoadTeamsLastWins(lines: seq<string>, developer: string)
    ensures OrderedMap.LastYield(lines, TeamEntry, developer).None? ==>
      OrderedMap.Get(LoadTeamsMapping(lines), developer).None?
    ensures OrderedMap.LastYield(lines, TeamEntry, developer).Some? ==>
      OrderedMap.Get(LoadTeamsMapping(lines), developer)
        == Some(TeamEntry(lines[OrderedMap.LastYield(lines, TeamEntry, developer).value]).value.1)
  {
    OrderedMap.CollectLastWins(lines, TeamEntry, developer);
  }

  /** The position of the first entry whose key equals `name` ignoring ASCII case. */
  function FirstCaseMatch(m: seq<(string, string)>, name: string): (r: Option<nat>)
    ensures r.None? <==> forall i :: 0 <= i < |m| ==> Lower(m[i].0) != Lower(name)
    ensures r.Some? ==> r.value < |m| && Lower(m[r.value].0) == Lower(name)
    ensures r.Some? ==> forall i :: 0 <= i < r.value ==> Lower(m[i].0) != Lower(name)
    decreases |m|
  {
    if |m| == 0 then None
    else if Lower(m[0].0) == Lower(name) then Some(0)
    else match FirstCaseMatch(m[1..], name)
      case None => None
      case Some(j) => Some(j + 1)
  }

  /** `get_team_for_developer`: the exact key first, then the first key equal ignoring case, else `Non`. */
  function GetTeamForDeveloper(m: seq<(string, string)>, name: string): (team: string)
    ensures name == [] ==> team == NoTeam
    ensures name != [] && OrderedMap.Get(m, name).Some? ==> team == OrderedMap.Get(m, name).value
    ensures name != [] && OrderedMap.Get(m, name).None? ==>
      forall i :: (0 <= i < |m| && Lower(m[i].0) == Lower(name)
        && forall j :: 0 <= j < i ==> Lower(m[j].0) != Lower(name)) ==> team == m[i].1
    ensures name != [] && (forall i :: 0 <= i < |m| ==> Lower(m[i].0) != Lower(name)) ==> team == NoTeam
  {
    if name == [] then NoTeam
    else match OrderedMap.Get(m, name)
      case Some(t) => t
      case None =>
        match FirstCaseMatch(m, name)
        case Some(i) => m[i].1
        case None => NoTeam
  }

  /** A developer named in the teams file is reported with the team of the last line naming them. */
  lemma LoadedDeveloperTeam(lines: seq<string>, developer: string)
    requires developer != []
    requires OrderedMap.LastYield(lines, TeamEntry, developer).Some?
    ensures GetTeamForDeveloper(LoadTeamsMapping(lines), developer)
      == TeamEntry(lines[OrderedMap.LastYield(lines, TeamEntry, developer).value]).value.1
  {
    LoadTeamsLastWins(lines, developer);
  }

  /**
   A name no line gives exactly is reported with the team of the developer whose first
   line comes earliest among those equal to the name ignoring case: the case-insensitive
   loop walks the developers in the order the file introduced them.
   */
  lemma LoadedCaseMatch(lines: seq<string>, name: string, developer: string)
    requires name != [] && Lower(developer) == Lower(name)
    requires OrderedMap.LastYield(lines, TeamEntry, name).None?
    requires OrderedMap.FirstYield(lines, TeamEntry, developer).Some?
    requires forall i :: 0 <= i < OrderedMap.FirstYield(lines, TeamEntry, developer).value ==>
      TeamEntry(lines[i]).None? || Lower(TeamEntry(lines[i]).value.0) != Lower(name)
    ensures OrderedMap.LastYield(lines, TeamEntry, developer).Some?
    ensures GetTeamForDeveloper(LoadTeamsMapping(lines), name)
      == TeamEntry(lines[OrderedMap.LastYield(lines, TeamEntry, developer).value]).value.1
  {
    var m := LoadTeamsMapping(lines);
    var f := OrderedMap.FirstYield(lines, TeamEntry, developer).value;
    LoadTeamsLastWins(lines, name);
    LoadTeamsLastWins(lines, developer);
    var team := OrderedMap.Get(m, developer).value;
    var p :| 0 <= p < |m| && m[p] == (developer, team);
    forall i | 0 <= i < p ensures Lower(m[i].0) != Lower(name) {
      var g := OrderedMap.FirstYield(lines, TeamEntry, m[i].0).value;
      assert g < f;
      assert TeamEntry(lines[g]).value.0 == m[i].0;
    }
  }

  // ---------------------------------------------------------------------------
  // extract_products_from_string: re.findall(r'#ÜRÜN_(.+?)\(\d+\)', line)
  // ---------------------------------------------------------------------------

  /** The literal that opens a product tag. */
  const Tag: string := "#\U{DC}R\U{DC}N_"

  /** The number of ASCII digits at the front of `s`. */
  function DigitRun(s: string): (n: nat)
    ensures n <= |s|
    ensures forall i :: 0 <= i < n ==> IsDigit(s[i])
    ensures n == |s| || !IsDigit(s[n])
    decreases |s|
  {
    if |s| == 0 || !IsDigit(s[0]) then 0 else 1 + DigitRun(s[1..])
  }

  /** `s` begins with a group `(` digits `)` that is `n` characters long. */
  predicate ClosesWith(s: string, n: nat) {
    3 <= n <= |s| && s[0] == '(' && IsDigits(s[1..n - 1]) && s[n - 1] == ')'
  }

  /** The length of the `\(\d+\)` group at the front of `s`, if there is one. */
  function CloseLength(s: string): (r: Option<nat>)
    ensures r.Some? ==> ClosesWith(s, r.value)
    ensures forall n: nat :: ClosesWith(s, n) ==> r.Some? && r.value == n
  {
    if |s| == 0 || s[0] != '(' then None
    else
      var t := s[1..];
      var d := DigitRun(t);
      if d >= 1 && 1 + d < |s| && s[1 + d] == ')' then
        assert ClosesWith(s, d + 2) by {
          DigitPrefix(t, d);
          assert s[1..d + 1] == t[..d];
        }
        ClosesAtMostOnce(s, d + 2);
        Some(d + 2)
      else
        assert forall n: nat :: !ClosesWith(s, n) by {
          forall n: nat | ClosesWith(s, n) ensures false {
            assert t[..n - 2] == s[1..n - 1] && t[n - 2] == s[n - 1];
            DigitRunCovers(t, n - 2);
          }
        }
        None
  }

  /** The digit run at the front is a digit string when it is not empty. */
  lemma DigitPrefix(s: string, d: nat)
    requires d == DigitRun(s) && d >= 1
    ensures IsDigits(s[..d])
  {
    assert forall i :: 0 <= i < d ==> s[..d][i] == s[i];
  }

  /** A digit run that is followed by a non-digit is exactly `DigitRun`. */
  lemma DigitRunCovers(s: string, k: nat)
    requires 1 <= k < |s|
    requires IsDigits(s[..k]) && !IsDigit(s[k])
    ensures DigitRun(s) == k
  {
  }

  lemma ClosesAtMostOnce(s: string, n: nat)
    requires ClosesWith(s, n)
    ensures forall m: nat :: ClosesWith(s, m) ==> m == n
  {

  }

  /** A capture of length `k` fits at the front of `s`: `k` characters without
      a line break (`.` never matches one), then a `\(\d+\)` group. */
  predicate CaptureFits(s: string, k: nat) {
    1 <= k <= |s| && '\n' !in s[..k] && CloseLength(s[k..]).Some?
  }

  /** The lazy `(.+?)`: the shortest capture length from `k` on that fits. */
  function LazyFrom(s: string, k: nat): (r: Option<nat>)
    requires 1 <= k <= |s| + 1
    requires '\n' !in s[..k - 1]
    ensures r.Some? ==> k <= r.value && CaptureFits(s, r.value)
    ensures r.Some? ==> forall j :: k <= j < r.value ==> !CaptureFits(s, j)
    ensures r.None? ==> forall j :: k <= j ==> !CaptureFits(s, j)
    decreases |s| + 1 - k
  {
    if k > |s| then None
    else if s[k - 1] == '\n' then
      BreakStopsCapture(s, k);
      None
    else
      NoBreakExtends(s, k);
      if CloseLength(s[k..]).Some? then Some(k)
      else
        assert !CaptureFits(s, k);
        LazyFrom(s, k + 1)
  }

  lemma NoBreakExtends(s: string, k: nat)
    requires 1 <= k <= |s| && '\n' !in s[..k - 1] && s[k - 1] != '\n'
    ensures '\n' !in s[..k]
  {
    assert s[..k] == s[..k - 1] + [s[k - 1]];
  }

  /** `.` cannot cross a line break, so no capture reaches past one. */
  lemma BreakStopsCapture(s: string, k: nat)
    requires 1 <= k <= |s| && s[k - 1] == '\n'
    ensures forall j :: k <= j ==> !CaptureFits(s, j)
  {
    forall j | k <= j <= |s| ensures '\n' in s[..j] {
      assert s[..j][k - 1] == '\n';
    }
  }

  /** One match of the pattern at the front of `s`. */
  datatype Match = Match(capture: string, length: nat)

  /** Python's regex engine trying the pattern at the first position of `s`. */
  function MatchAt(s: string): (r: Option<Match>)
    ensures r.Some? ==> |Tag| < r.value.length <= |s|
    ensures r.Some? ==> r.value.capture != [] && '\n' !in r.value.capture
  {
    if !StartsWith(s, Tag) then None
    else
      var rest := s[|Tag|..];
      match LazyFrom(rest, 1)
      case None => None
      case Some(k) =>
        assert rest[..k] == s[|Tag|..|Tag| + k];
        Some(Match(rest[..k], |Tag| + k + CloseLength(rest[k..]).value))
  }

  /** A match is the tag, the SHORTEST capture that a digit group follows, and
      that group; there is no match exactly when no capture length fits. */
  lemma MatchAtIsLazy(s: string)
    ensures MatchAt(s).Some? ==> StartsWith(s, Tag)
    ensures MatchAt(s).Some? ==> var m, rest := MatchAt(s).value, s[|Tag|..];
      && CaptureFits(rest, |m.capture|)
      && m.capture == rest[..|m.capture|]
      && (forall j :: 1 <= j < |m.capture| ==> !CaptureFits(rest, j))
      && m.length == |Tag| + |m.capture| + CloseLength(rest[|m.capture|..]).value
    ensures MatchAt(s).None? ==> !StartsWith(s, Tag) || forall j :: !CaptureFits(s[|Tag|..], j)
  {
  }

  /** `re.findall`: every non-overlapping match, scanning left to right. */
  function FindAll(s: string): (captures: seq<string>)
    ensures forall i :: 0 <= i < |captures| ==> captures[i] != [] && '\n' !in captures[i]
    decreases |s|
  {
    if |s| == 0 then []
    else match MatchAt(s)
      case Some(m) => [m.capture] + FindAll(s[m.length..])
      case None => FindAll(s[1..])
  }

  /** Where the tag does not start, scanning moves on by one character. */
  lemma FindAllNoTag(s: string)
    requires |s| > 0 && s[0] != '#'
    ensures FindAll(s) == FindAll(s[1..])
  {
    assert !StartsWith(s, Tag) by {
      if |Tag| <= |s| {
        assert s[..|Tag|][0] == s[0] != Tag[0];
      }
    }
  }

  /** Text without a `#` holds no match. */
  lemma {:induction false} FindAllSkips(a: string, b: string)
    requires '#' !in a
    ensures FindAll(a + b) == FindAll(b)
    decreases |a|
  {
    if |a| == 0 {
      assert a + b == b;
    } else {
      var s := a + b;
      assert s[0] == a[0];
      FindAllNoTag(s);
      assert s[1..] == a[1..] + b;
      FindAllSkips(a[1..], b);
    }
  }

  /** A product tag's text: `#ÜRÜN_<name>(<id>)`. */
  function TagText(name: string, id: nat): string {
    TagOf(name, NatToString(id))
  }

  /** The tag with any digit string as its id. */
  function TagOf(name: string, digits: string): string {
    Tag + name + "(" + digits + ")"
  }

  /** A name the pattern captures whole: non-empty, with no `(` and no line break. */
  predicate Capturable(name: string) {
    name != [] && '(' !in name && '\n' !in name
  }

  /** A digit group at the front closes the capture. */
  lemma GroupCloses(digits: string, rest: string)
    requires IsDigits(digits)
    ensures CloseLength("(" + digits + ")" + rest) == Some(|digits| + 2)
  {
    var g := "(" + digits + ")" + rest;
    assert g[1..|digits| + 1] == digits;
    assert ClosesWith(g, |digits| + 2);
  }

  /** The lazy capture stops at the first `(` that opens a digit group. */
  lemma LazyStopsAtGroup(name: string, g: string)
    requires Capturable(name)
    requires CloseLength(g).Some?
    ensures LazyFrom(name + g, 1) == Some(|name|)
  {
    var after := name + g;
    assert after[|name|..] == g;
    assert after[..|name|] == name;
    assert CaptureFits(after, |name|);
    forall j | 1 <= j < |name| ensures !CaptureFits(after, j) {
      assert after[j..][0] == name[j];
    }
  }

  /** Text that starts with a tag splits into the tag literal and what the pattern scans after it. */
  lemma TagSplits(name: string, digits: string, rest: string)
    ensures StartsWith(TagOf(name, digits) + rest, Tag)
    ensures (TagOf(name, digits) + rest)[|Tag|..] == name + ("(" + digits + ")" + rest)
  {
    assert TagOf(name, digits) + rest == Tag + (name + ("(" + digits + ")" + rest));
  }

  lemma ConcatSlices(a: string, b: string)
    ensures (a + b)[..|a|] == a && (a + b)[|a|..] == b
  {
  }

  /** The pattern matches a whole tag at the front, capturing its name. */
  lemma MatchAtTagged(name: string, id: nat, rest: string)
    requires Capturable(name)
    ensures MatchAt(TagText(name, id) + rest).Some?
    ensures MatchAt(TagText(name, id) + rest).value.capture == name
    ensures MatchAt(TagText(name, id) + rest).value.length == |TagText(name, id)|
  {
    MatchAtDigits(name, NatToString(id), rest);
  }

  /** The same for any digit string in place of the printed id. */
  lemma MatchAtDigits(name: string, digits: string, rest: string)
    requires Capturable(name) && IsDigits(digits)
    ensures MatchAt(TagOf(name, digits) + rest).Some?
    ensures MatchAt(TagOf(name, digits) + rest).value.capture == name
    ensures MatchAt(TagOf(name, digits) + rest).value.length == |TagOf(name, digits)|
  {
    TagSplits(name, digits, rest);
    GroupCloses(digits, rest);
    MatchAtFromParts(TagOf(name, digits) + rest, name, "(" + digits + ")" + rest, |digits| + 2);
  }

  /** After the tag, a capturable name followed by a digit group of length `n` is one match. */
  lemma MatchAtFromParts(s: string, name: string, g: string, n: nat)
    requires StartsWith(s, Tag) && s[|Tag|..] == name + g
    requires Capturable(name) && CloseLength(g) == Some(n)
    ensures MatchAt(s).Some?
    ensures MatchAt(s).value.capture == name
    ensures MatchAt(s).value.length == |Tag| + |name| + n
  {
    LazyStopsAtGroup(name, g);
    ConcatSlices(name, g);
    MatchAtUnfold(s, |name|, n);
  }

  lemma MatchAtUnfold(s: string, k: nat, n: nat)
    requires StartsWith(s, Tag)
    requires LazyFrom(s[|Tag|..], 1) == Some(k)
    requires CloseLength(s[|Tag|..][k..]) == Some(n)
    ensures MatchAt(s).Some?
    ensures MatchAt(s).value.capture == s[|Tag|..][..k]
    ensures MatchAt(s).value.length == |Tag| + k + n
  {
  }

  /** A tag at the front is matched with its whole name as the capture, and scanning resumes after it. */
  lemma FindAllTagged(name: string, id: nat, rest: string)
    requires Capturable(name)
    ensures FindAll(TagText(name, id) + rest) == [name] + FindAll(rest)
  {
    var s := TagText(name, id) + rest;
    MatchAtTagged(name, id, rest);
    assert s[|TagText(name, id)|..] == rest;
  }

  /** A tag followed by a space contributes its name, and scanning goes on after the space. */
  lemma FindAllTagThenSpace(name: string, id: nat, tail: string)
    requires Capturable(name)
    ensures FindAll(TagText(name, id) + (" " + tail)) == [name] + FindAll(tail)
  {
    FindAllTagged(name, id, " " + tail);
    FindAllSkips(" ", tail);
  }

  /** The products column as written upstream: tags separated by single spaces. */
  function Rendered(items: seq<(string, nat)>): string
    decreases |items|
  {
    if |items| == 0 then ""
    else if |items| == 1 then TagText(items[0].0, items[0].1)
    else TagText(items[0].0, items[0].1) + " " + Rendered(items[1..])
  }

  function Names(items: seq<(string, nat)>): (names: seq<string>)
    ensures |names| == |items| && forall i :: 0 <= i < |items| ==> names[i] == items[i].0
  {
    seq(|items|, i requires 0 <= i < |items| => items[i].0)
  }

  /** Finding all tags of a rendered column gives back every name, in order. */
  lemma {:induction false} FindAllRendered(items: seq<(string, nat)>)
    requires forall i :: 0 <= i < |items| ==> Capturable(items[i].0)
    ensures FindAll(Rendered(items)) == Names(items)
    decreases |items|
  {
    if |items| == 1 {
      FindAllTagged(items[0].0, items[0].1, "");
      assert TagText(items[0].0, items[0].1) + "" == Rendered(items);
    } else if |items| > 1 {
      RenderedCons(items);
      FindAllTagThenSpace(items[0].0, items[0].1, Rendered(items[1..]));
      FindAllRendered(items[1..]);
      NamesCons(items);
    }
  }

  lemma RenderedCons(items: seq<(string, nat)>)
    requires |items| > 1
    ensures Rendered(items) == TagText(items[0].0, items[0].1) + (" " + Rendered(items[1..]))
  {
  }

  lemma NamesCons(items: seq<(string, nat)>)
    requires |items| > 0
    ensures Names(items) == [items[0].0] + Names(items[1..])
  {
  }

  // ---------------------------------------------------------------------------
  // extract_products_from_string / create_standardized_products_string
  // ---------------------------------------------------------------------------

  /** Product names as the cleaning loop leaves them: non-empty and pairwise distinct. */
  predicate CleanNames(products: seq<string>) {
    && (forall i, j :: 0 <= i < j < |products| ==> products[i] != products[j])
    && (forall p :: p in products ==> p != [])
  }

  /** The order-preserving de-duplication of the stripped, non-blank captures. */
  function Clean(captures: seq<string>): (products: seq<string>)
    ensures CleanNames(products)
    decreases |captures|
  {
    if |captures| == 0 then []
    else
      var kept := Clean(captures[..|captures| - 1]);
      var cleaned := Strip(captures[|captures| - 1]);
      if cleaned != [] && cleaned !in kept then kept + [cleaned] else kept
  }

  /** One more capture adds at most its stripped self and keeps every earlier product. */
  lemma CleanStep(captures: seq<string>)
    requires |captures| > 0
    ensures forall p :: p in Clean(captures) ==>
      p in Clean(captures[..|captures| - 1]) || p == Strip(captures[|captures| - 1])
    ensures forall p :: p in Clean(captures[..|captures| - 1]) ==> p in Clean(captures)
    ensures Strip(captures[|captures| - 1]) != [] ==> Strip(captures[|captures| - 1]) in Clean(captures)
  {
  }

  /** Every product is a stripped capture. */
  lemma {:induction false} CleanFromCaptures(captures: seq<string>)
    ensures forall p :: p in Clean(captures) ==> exists c :: c in captures && Strip(c) == p
    decreases |captures|
  {
    if |captures| > 0 {
      var init, last := captures[..|captures| - 1], captures[|captures| - 1];
      CleanFromCaptures(init);
      CleanStep(captures);
      forall p | p in Clean(captures) ensures exists c :: c in captures && Strip(c) == p {
        if p in Clean(init) {
          var c :| c in init && Strip(c) == p;
          assert c in captures;
        } else {
          assert last in captures;
        }
      }
    }
  }

  /** Every non-blank capture is kept, stripped. */
  lemma {:induction false} CapturesInClean(captures: seq<string>)
    ensures forall c :: c in captures && Strip(c) != [] ==> Strip(c) in Clean(captures)
    decreases |captures|
  {
    if |captures| > 0 {
      var init, last := captures[..|captures| - 1], captures[|captures| - 1];
      Seqs.LastSplit(captures);
      CapturesInClean(init);
      CleanStep(captures);
      forall c | c in captures && Strip(c) != [] ensures Strip(c) in Clean(captures) {
        if c != last {
          assert c in init;
        }
      }
    }
  }

  /** The captures after `strip()`, position by position. */
  function Stripped(captures: seq<string>): (r: seq<string>)
    ensures |r| == |captures|
    ensures forall i :: 0 <= i < |captures| ==> r[i] == Strip(captures[i])
  {
    seq(|captures|, i requires 0 <= i < |captures| => Strip(captures[i]))
  }

  lemma StrippedSnoc(captures: seq<string>, c: string)
    ensures Stripped(captures + [c]) == Stripped(captures) + [Strip(c)]
  {
  }

  /** The position of the first occurrence of `p`, or `|xs|` when there is none. */
  function FirstAt(xs: seq<string>, p: string): (k: nat)
    ensures k <= |xs|
    ensures k < |xs| ==> xs[k] == p
    ensures forall i :: 0 <= i < k ==> xs[i] != p
    decreases |xs|
  {
    if |xs| == 0 then 0
    else
      var init := xs[..|xs| - 1];
      var k := FirstAt(init, p);
      assert forall i :: 0 <= i < |init| ==> xs[i] == init[i];
      if k < |init| then k
      else if xs[|xs| - 1] == p then |init|
      else |xs|
  }

  lemma FirstAtSnoc(xs: seq<string>, x: string, p: string)
    ensures FirstAt(xs + [x], p) == if FirstAt(xs, p) < |xs| then FirstAt(xs, p) else if x == p then |xs| else |xs| + 1
  {
    assert (xs + [x])[..|xs|] == xs;
  }

  /** Every product occurs in `xs`, and the products are ordered by their first occurrence. */
  predicate FirstSeenOrder(products: seq<string>, xs: seq<string>) {
    && (forall i :: 0 <= i < |products| ==> FirstAt(xs, products[i]) < |xs|)
    && (forall i, j :: 0 <= i < j < |products| ==> FirstAt(xs, products[i]) < FirstAt(xs, products[j]))
  }

  /** One more value at the end moves no first occurrence. */
  lemma FirstSeenOrderKept(products: seq<string>, xs: seq<string>, x: string)
    requires FirstSeenOrder(products, xs)
    ensures FirstSeenOrder(products, xs + [x])
  {
    forall p | FirstAt(xs, p) < |xs| ensures FirstAt(xs + [x], p) == FirstAt(xs, p) {
      FirstAtSnoc(xs, x, p);
    }
  }

  /** A value seen for the first time goes after every earlier product. */
  lemma FirstSeenOrderExtended(products: seq<string>, xs: seq<string>, x: string)
    requires FirstSeenOrder(products, xs) && FirstAt(xs, x) == |xs|
    ensures FirstSeenOrder(products + [x], xs + [x])
  {
    FirstSeenOrderKept(products, xs, x);
    FirstAtSnoc(xs, x, x);
  }

  /**
   The products come in the order of their first captures: the first capture that
   strips to `products[i]` comes before the first that strips to `products[j]`
   whenever `i < j`, and every product is the strip of some capture.
   */
  lemma {:induction false} CleanInFirstSeenOrder(captures: seq<string>)
    ensures FirstSeenOrder(Clean(captures), Stripped(captures))
    decreases |captures|
  {
    if |captures| > 0 {
      var n := |captures|;
      var init, last := captures[..n - 1], captures[n - 1];
      var cleaned := Strip(last);
      CleanInFirstSeenOrder(init);
      Seqs.LastSplit(captures);
      StrippedSnoc(init, last);
      CleanSnoc(init, last);
      if cleaned != [] && cleaned !in Clean(init) {
        NotYetSeen(init, cleaned);
        FirstSeenOrderExtended(Clean(init), Stripped(init), cleaned);
      } else {
        FirstSeenOrderKept(Clean(init), Stripped(init), cleaned);
      }
    }
  }

  lemma CleanSnoc(init: seq<string>, last: string)
    ensures Clean(init + [last])
      == if Strip(last) != [] && Strip(last) !in Clean(init) then Clean(init) + [Strip(last)] else Clean(init)
  {
    assert (init + [last])[..|init|] == init;
  }

  /** A non-blank value that is not yet a product is not the strip of any capture so far. */
  lemma NotYetSeen(captures: seq<string>, c: string)
    requires c != [] && c !in Clean(captures)
    ensures FirstAt(Stripped(captures), c) == |captures|
  {
    var k := FirstAt(Stripped(captures), c);
    if k < |captures| {
      CapturesInClean(captures);
    }
  }

  /** Captures that are already stripped, non-blank and pairwise different. */
  predicate AlreadyClean(captures: seq<string>) {
    && (forall i :: 0 <= i < |captures| ==> captures[i] != [] && Strip(captures[i]) == captures[i])
    && (forall i, j :: 0 <= i < j < |captures| ==> captures[i] != captures[j])
  }

  lemma AlreadyCleanInit(captures: seq<string>)
    requires |captures| > 0 && AlreadyClean(captures)
    ensures AlreadyClean(captures[..|captures| - 1])
    ensures captures[|captures| - 1] !in captures[..|captures| - 1]
    ensures captures[|captures| - 1] != [] && Strip(captures[|captures| - 1]) == captures[|captures| - 1]
  {
    var init, last := captures[..|captures| - 1], captures[|captures| - 1];
    forall i | 0 <= i < |init| ensures init[i] != last {
      assert init[i] == captures[i];
    }
  }

  /** Captures that are already clean come back unchanged. */
  lemma {:induction false} CleanOfDistinct(captures: seq<string>)
    requires AlreadyClean(captures)
    ensures Clean(captures) == captures
    decreases |captures|
  {
    if |captures| > 0 {
      var init := captures[..|captures| - 1];
      Seqs.LastSplit(captures);
      AlreadyCleanInit(captures);
      CleanOfDistinct(init);
    }
  }

  /** `extract_products_from_string`: the clean distinct product names of the
      tags, or `["non"]` for a blank row or a row without any match. */
  function ExtractProducts(productsText: string): (products: seq<string>)
    ensures FindAll(Strip(productsText)) == [] ==> products == [NoProduct]
    ensures FindAll(Strip(productsText)) != [] ==> FirstSeenOrder(products, Stripped(FindAll(Strip(productsText))))
    ensures CleanNames(products)
  {
    var line := Strip(productsText);
    if line == [] then [NoProduct]
    else
      var captures := FindAll(line);
      if captures == [] then [NoProduct]
      else
        CleanInFirstSeenOrder(captures);
        Clean(captures)
  }

  /** When the row has tags, every product is a stripped capture, every non-blank
      capture is among the products, and the products follow their first captures. */
  lemma ProductsAreCaptures(productsText: string)
    requires FindAll(Strip(productsText)) != []
    ensures forall p :: p in ExtractProducts(productsText) ==>
      exists c :: c in FindAll(Strip(productsText)) && Strip(c) == p
    ensures forall c :: c in FindAll(Strip(productsText)) && Strip(c) != [] ==>
      Strip(c) in ExtractProducts(productsText)
    ensures var products := ExtractProducts(productsText);
      forall i, j :: 0 <= i < j < |products| ==>
        FirstAt(Stripped(FindAll(Strip(productsText))), products[i])
          < FirstAt(Stripped(FindAll(Strip(productsText))), products[j])
  {
    var captures := FindAll(Strip(productsText));
    CleanFromCaptures(captures);
    CapturesInClean(captures);
    CleanInFirstSeenOrder(captures);
  }

  /** A row without any `#` has no product. */
  lemma UntaggedRowHasNoProduct(productsText: string)
    requires '#' !in productsText
    ensures ExtractProducts(productsText) == [NoProduct]
  {
    var line := Strip(productsText);
    FindAllSkips(line, "");
    assert line + "" == line;
  }

  /** Every product list with at least one entry: its first character is `#`, its last `)`. */
  lemma {:induction false} RenderedEnds(items: seq<(string, nat)>)
    requires |items| > 0
    ensures |Rendered(items)| > 0 && Rendered(items)[0] == '#' && Rendered(items)[|Rendered(items)| - 1] == ')'
    decreases |items|
  {
    var t := TagText(items[0].0, items[0].1);
    assert t[0] == '#' && t[|t| - 1] == ')';
    if |items| > 1 {
      RenderedEnds(items[1..]);
    }
  }

  /** Names a tagged row round-trips through extraction. */
  predicate ValidNames(items: seq<(string, nat)>) {
    && (forall i :: 0 <= i < |items| ==> Capturable(items[i].0) && Strip(items[i].0) == items[i].0)
    && (forall i, j :: 0 <= i < j < |items| ==> items[i].0 != items[j].0)
  }

  /** Extracting the products of a rendered row gives back its distinct names, in order. */
  lemma ExtractRendered(items: seq<(string, nat)>)
    requires |items| > 0 && ValidNames(items)
    ensures ExtractProducts(Rendered(items)) == Names(items)
  {
    RenderedEnds(items);
    FindAllRendered(items);
    ValidNamesAreClean(items);
    ExtractOfCaptures(Rendered(items), Names(items));
  }

  lemma ValidNamesAreClean(items: seq<(string, nat)>)
    requires ValidNames(items)
    ensures AlreadyClean(Names(items))
  {
  }

  /** A row from `#` to `)` whose captures are already clean extracts to exactly those captures. */
  lemma ExtractOfCaptures(text: string, captures: seq<string>)
    requires |text| > 0 && text[0] == '#' && text[|text| - 1] == ')'
    requires FindAll(text) == captures && captures != [] && AlreadyClean(captures)
    ensures ExtractProducts(text) == captures
  {
    StripUnchanged(text);
    CleanOfDistinct(captures);
  }

  /** The list without its `"non"` entries. */
  function WithoutNoProduct(list: seq<string>): (kept: seq<string>)
    ensures forall p :: p in kept <==> p in list && p != NoProduct
    ensures |kept| <= |list|
    ensures multiset(kept) == multiset(list)[NoProduct := 0]
    decreases |list|
  {
    if |list| == 0 then []
    else
      assert list == [list[0]] + list[1..];
      if list[0] == NoProduct then WithoutNoProduct(list[1..])
      else [list[0]] + WithoutNoProduct(list[1..])
  }

  /** Filtering two lists one after the other keeps each list's entries in order. */
  lemma {:induction false} WithoutNoProductAppend(a: seq<string>, b: seq<string>)
    ensures WithoutNoProduct(a + b) == WithoutNoProduct(a) + WithoutNoProduct(b)
    decreases |a|
  {
    if |a| == 0 {
      assert a + b == b;
    } else {
      var head := if a[0] == NoProduct then [] else [a[0]];
      WithoutNoProductCons(a, b, head);
      WithoutNoProductAppend(a[1..], b);
      Seqs.AppendAssoc(head, WithoutNoProduct(a[1..]), WithoutNoProduct(b));
    }
  }

  lemma WithoutNoProductCons(a: seq<string>, b: seq<string>, head: seq<string>)
    requires |a| > 0 && head == if a[0] == NoProduct then [] else [a[0]]
    ensures WithoutNoProduct(a) == head + WithoutNoProduct(a[1..])
    ensures WithoutNoProduct(a + b) == head + WithoutNoProduct(a[1..] + b)
  {
    assert (a + b)[0] == a[0] && (a + b)[1..] == a[1..] + b;
  }

  /** A single entry is dropped exactly when it is `non`. */
  lemma WithoutNoProductOne(p: string)
    ensures WithoutNoProduct([p]) == [] <==> p == NoProduct
    ensures p != NoProduct ==> WithoutNoProduct([p]) == [p]
  {
  }

  lemma {:induction false} WithoutNoProductKeepsOthers(list: seq<string>)
    requires NoProduct !in list
    ensures WithoutNoProduct(list) == list
    decreases |list|
  {
    if |list| > 0 {
      assert list[0] != NoProduct && list == [list[0]] + list[1..];
      WithoutNoProductCons(list, [], [list[0]]);
      WithoutNoProductKeepsOthers(list[1..]);
    }
  }

  /** Joining two or more parts with `", "` leaves a comma in the text. */
  lemma CommaInJoin(parts: seq<string>)
    requires |parts| >= 2
    ensures ',' in Join(parts, ", ")
  {
    var j := Join(parts, ", ");
    assert j == parts[0] + ", " + Join(parts[1..], ", ");
    assert j[|parts[0]|] == ',';
  }

  /** `create_standardized_products_string`: the comma-separated real products,
      or `non` when the list holds nothing but `non`. */
  function StandardizeProducts(list: seq<string>): (text: string)
    ensures text == NoProduct <==> forall i :: 0 <= i < |list| ==> list[i] == NoProduct
    ensures text != NoProduct ==> text == Join(WithoutNoProduct(list), ", ")
  {
    if |list| == 0 then NoProduct
    else
      var kept := WithoutNoProduct(list);
      if |kept| == 0 then
        assert forall i :: 0 <= i < |list| ==> list[i] == NoProduct by {
          forall i | 0 <= i < |list| ensures list[i] == NoProduct {
            assert list[i] in list;
          }
        }
        NoProduct
      else
        var text := Join(kept, ", ");
        assert text != NoProduct by {
          if |kept| >= 2 {
            CommaInJoin(kept);
          } else {
            assert kept[0] in kept;
          }
        }
        assert kept[0] in list;
        text
  }

  /** `process_products_field`: extraction followed by standardisation. */
  function ProcessProductsField(productsText: string): (text: string)
    ensures text != []
  {
    var products := ExtractProducts(productsText);
    var text := StandardizeProducts(products);
    assert text != [] by {
      if text != NoProduct {
        var kept := WithoutNoProduct(products);
        assert kept[0] in kept;
        JoinHeadPrefix(kept, ", ");
      }
    }
    text
  }

  /** The joined text starts with the first part. */
  lemma JoinHeadPrefix(parts: seq<string>, sep: string)
    requires |parts| > 0
    ensures |Join(parts, sep)| >= |parts[0]|
  {
  }

  /** A rendered row of real products becomes their names joined by `", "`. */
  lemma ProcessRendered(items: seq<(string, nat)>)
    requires |items| > 0 && ValidNames(items)
    requires forall i :: 0 <= i < |items| ==> items[i].0 != NoProduct
    ensures ProcessProductsField(Rendered(items)) == Join(Names(items), ", ")
  {
    ExtractRendered(items);
    ProcessOfRealProducts(Rendered(items), items);
  }

  lemma ProcessOfRealProducts(productsText: string, items: seq<(string, nat)>)
    requires |items| > 0 && forall i :: 0 <= i < |items| ==> items[i].0 != NoProduct
    requires ExtractProducts(productsText) == Names(items)
    ensures ProcessProductsField(productsText) == Join(Names(items), ", ")
  {
    StandardizeRealProducts(Names(items));
  }

  /** A list of real products is standardised to its `", "`-join. */
  lemma StandardizeRealProducts(list: seq<string>)
    requires |list| > 0 && NoProduct !in list
    ensures StandardizeProducts(list) == Join(list, ", ")
  {
    WithoutNoProductKeepsOthers(list);
    assert list[0] != NoProduct;
  }

  /** A row without tags is standardised to `non`. */
  lemma UntaggedRowIsNon(productsText: string)
    requires '#' !in productsText
    ensures ProcessProductsField(productsText) == NoProduct
  {
    UntaggedRowHasNoProduct(productsText);
  }

  // ---------------------------------------------------------------------------
  // parse_duration_to_minutes and the lead-time fields of fetch_lead_time_data
  // ---------------------------------------------------------------------------

  /** Hours, minutes and seconds in minutes. */
  function Minutes(hours: real, mins: real, seconds: real): real {
    hours * 60.0 + mins + seconds / 60.0
  }

  /** `HH:MM:SS[.fraction]` in minutes; fields past the third are ignored, and
      anything `float()` rejects makes the duration unknown. */
  function ParseDurationToMinutes(duration: string): (minutes: Option<real>)
    ensures duration == [] ==> minutes.None?
    ensures |Split(duration, ':')| < 3 ==> minutes.None?
    ensures minutes.Some? ==>
      var parts := Split(duration, ':');
      && ParseFloat(parts[0]).Some? && ParseFloat(parts[1]).Some? && ParseFloat(parts[2]).Some?
  {
    if duration == [] then None
    else
      var parts := Split(duration, ':');
      if |parts| < 3 then None
      else match (ParseFloat(parts[0]), ParseFloat(parts[1]), ParseFloat(parts[2]))
        case (Some(hours), Some(mins), Some(seconds)) => Some(Minutes(hours, mins, seconds))
        case _ => None
  }

  /** A duration written from whole hours, minutes and seconds reads back as that many minutes. */
  lemma DurationRoundTrip(hours: nat, mins: nat, seconds: nat)
    ensures ParseDurationToMinutes(NatToString(hours) + ":" + NatToString(mins) + ":" + NatToString(seconds))
      == Some(Minutes(hours as real, mins as real, seconds as real))
  {
    var h, m, s := NatToString(hours), NatToString(mins), NatToString(seconds);
    SplitThree(h, m, s);
    FloatOfNatString(hours);
    FloatOfNatString(mins);
    FloatOfNatString(seconds);
    DurationOfFields(h + ":" + m + ":" + s, hours as real, mins as real, seconds as real);
  }

  lemma DurationOfFields(duration: string, hours: real, mins: real, seconds: real)
    requires duration != [] && |Split(duration, ':')| >= 3
    requires ParseFloat(Split(duration, ':')[0]) == Some(hours)
    requires ParseFloat(Split(duration, ':')[1]) == Some(mins)
    requires ParseFloat(Split(duration, ':')[2]) == Some(seconds)
    ensures ParseDurationToMinutes(duration) == Some(Minutes(hours, mins, seconds))
  {
  }

  /** Three digit strings glued with `:` split back into themselves. */
  lemma SplitThree(h: string, m: string, s: string)
    requires IsDigits(h) && IsDigits(m) && IsDigits(s)
    ensures Split(h + ":" + m + ":" + s, ':') == [h, m, s]
  {
    JoinThree(h, m, s);
    NoColonInDigits(h);
    NoColonInDigits(m);
    NoColonInDigits(s);
    SplitOfJoin([h, m, s], ':');
  }

  lemma JoinThree(h: string, m: string, s: string)
    ensures Join([h, m, s], [':']) == h + ":" + m + ":" + s
  {
    var parts := [h, m, s];
    assert Join(parts[1..], [':']) == m + ":" + s by {
      assert parts[1..][1..] == [s];
    }
  }

  lemma NoColonInDigits(s: string)
    requires IsDigits(s)
    ensures ':' !in s
  {
  }

  /** `lead_time_hours`: minutes / 60, absent when the minutes are missing or zero. */
  function LeadTimeHours(minutes: Option<real>): (hours: Option<real>)
    ensures hours.Some? <==> minutes.Some? && minutes.value != 0.0
    ensures hours.Some? ==> hours.value * 60.0 == minutes.value
  {
    if minutes.Some? && minutes.value != 0.0 then Some(minutes.value / 60.0) else None
  }

  /** `lead_time_days`: minutes / 1440, absent when the minutes are missing or zero. */
  function LeadTimeDays(minutes: Option<real>): (days: Option<real>)
    ensures days.Some? <==> minutes.Some? && minutes.value != 0.0
    ensures days.Some? ==> days.value * 1440.0 == minutes.value
  {
    if minutes.Some? && minutes.value != 0.0 then Some(minutes.value / 1440.0) else None
  }

  /** The two lead-time fields agree: a day is 24 hours. */
  lemma LeadTimeDaysAreHours(minutes: Option<real>)
    ensures LeadTimeDays(minutes).Some? <==> LeadTimeHours(minutes).Some?
    ensures LeadTimeDays(minutes).Some? ==> LeadTimeDays(minutes).value * 24.0 == LeadTimeHours(minutes).value
  {
  }
}
