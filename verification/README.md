# Git, DORA and Cursor productivity metrics — a Dafny model

This project models the data-shaping core of three collector scripts. Each
script reads developer activity, classifies it and writes one record per
item to a search index:

- `scripts/gitstats.py` reads a git repository. It parses the
  `git show --numstat` rows of each commit and classifies every touched file:
  - Refactor: the file's last edit is more than three weeks old and more than
    10 lines changed (an old edit with a smaller change is Churn/Rework);
  - New Work: the file has no history, or its last edit is recent, by the same
    author, and the commit's diff for it is purely additive;
  - Help Others: the file's last edit is recent and by someone else;
  - Churn/Rework: anything else.

  It then picks the commit's category by a weighted vote (8/6/5/4, ties to
  the earlier category). It scores the commit's efficiency and its
  file-type-weighted impact, and maps author names through a users file.
- `scripts/dora-metrics.py` reads release rows. It maps developers to teams
  through a `Team Name-Developer Name` file, with exact lookup first and
  case-insensitive lookup second. It extracts the product names from the
  `#ÜRÜN_<name>(<id>)` tags of a release row with the regular expression
  `#ÜRÜN_(.+?)\(\d+\)`. It also converts `HH:MM:SS` lead times into minutes,
  hours and days.
- `scripts/cursor_metrics.py` reads Cursor usage:
  - it maps e-mail addresses to corporate names through a users file;
  - it builds the team-member map from the API payload;
  - it adds `memberName`, `memberRole` and `author` to every usage record and
    usage event;
  - it chooses the date window to fetch.

## Layout

| file | module | contents |
|---|---|---|
| `wrappers.dfy` | `Wrappers` | `Option` |
| `seqs.dfy` | `Seqs` | a sequence-splitting lemma shared by the folds |
| `strings.dfy` | `Strings` | Python's `strip`, `lower`, `split`, `rsplit(…, 1)`, `split(…, 1)`, `join`, `isdigit`, `int()` and `float()` on ASCII text, with round-trip lemmas |
| `ordered_map.dfy` | `OrderedMap` | a Python `dict` as an association list in insertion order, and the "one entry per line, later lines win" fold used by every mapping-file loader |
| `gitstats.dfy` | `GitStats` | `get_file_stats`, `categorize_file`, `determine_commit_category`, `calculate_efficiency`, `calculate_commit_impact`, `process_commit`, `load_users` |
| `dora.dfy` | `Dora` | `load_teams_mapping`, `get_team_for_developer`, `extract_products_from_string` with its regular expression, `create_standardized_products_string`, `process_products_field`, `parse_duration_to_minutes`, the lead-time fields |
| `cursor.dfy` | `CursorMetrics` | `_load_corporate_names`, `fetch_team_members`, the member and author fields of `enrich_usage_data` and `enrich_usage_events`, the date window of `main` |

## Modelling choices

- Git is an oracle. A commit's details and its `--numstat` text are inputs. The
  per-file history query (`git log -1 --pretty=format:%an %ct`) and the per-file
  diff are functions carried by a `History` value.
- The regular expression is modelled by what it does:
  - `MatchAt` tries the pattern at one position. It needs the literal tag, then
    the shortest capture of `.` characters (never a line break) that is
    followed by `(` digits `)`.
  - `FindAll` is `re.findall`: it scans left to right and resumes after each match.
- Reals are exact. The impact weights are a parameter `weight: string -> real`.
  `ScriptWeight` is the script's own choice of weights, and the bounds lemmas
  hold for any weight between 0.3 and 0.6.
- Files are read line by line. Every loader is a fold over a sequence of lines.
- Where a comment or docstring in the scripts and the code disagree, the model
  follows the code:
  - The "config" extension list in `calculate_commit_impact` repeats the
    document list entry for entry. The document test runs first, so the 0.7
    configuration weight is never used. Code files weigh 0.6 and everything
    else 0.3 (`GitStats.ScriptTableShadowsConfig`, `GitStats.ImpactWeightCases`).
  - The docstring of `extract_products_from_string` gives `"0#() " -> []`. The
    code returns `["non"]` for every row without a match
    (`Dora.UntaggedRowHasNoProduct`, `Dora.ExtractProducts`).
  - The docstrings of `load_users` and `get_commit_details`
    (`scripts/gitstats.py:26-31`, `scripts/gitstats.py:77-79`) say that an author
    name is replaced by its alias. The code does the reverse. A users-file line
    `Name-Alias` stores `users[alias] = name` (`scripts/gitstats.py:44`), and a git
    author name that equals an alias key is replaced by the name on that line
    (`scripts/gitstats.py:90-92`). The model follows the code
    (`GitStats.UserEntry`, `GitStats.ResolveWithUsersFile`).
- Two quirks of the code are modelled as written:
  - `gitstats.py` replaces a git author name that is an alias key in the users
    file by the name on that line, and does so before classifying. The history
    line still carries git's own name, so a mapped author's own recent edit
    counts as Help Others (`GitStats.MappedAuthorOwnEditIsHelp`).
  - `cursor_metrics.py` splits users-file lines at every dash, so an address
    with a dash before its `@` drops its line (`CursorMetrics.HyphenatedEmailDropped`).

## Model

| member | source | states |
|---|---|---|
| OrderedMap.PutGet | scripts/gitstats.py:44 | after `m[k] = v`, `k` maps to `v`, every other key keeps its value, and the dict grows by one exactly when `k` was new |
| OrderedMap.CollectLastWins | scripts/gitstats.py:36-44 | a key loaded from a file maps to the value of the last line yielding it, and is absent when no line yields it |
| OrderedMap.Collect | scripts/gitstats.py:33-45 | the loaded dict never holds a key twice |
| OrderedMap.CollectInFirstYieldOrder | scripts/dora-metrics.py:113-127 | every key of the loaded dict comes from some line, and the keys are in the order of the first line yielding each; a later line only overwrites a value in place |
| GitStats.NumstatEntry | scripts/gitstats.py:99-107 | a kept row is two digit strings and a rest, tab-separated, read as the two counts and the rest's first field as the path |
| GitStats.NumstatEntryOfFields | scripts/gitstats.py:101-107 | any line of two digit strings and a rest, tab-separated, is kept with those counts and the rest up to its next tab as the path |
| GitStats.NumstatEntryExactly | scripts/gitstats.py:99-107 | a line is kept as a given row exactly when it is two digit strings and a rest that read as that row |
| GitStats.KeepEntriesAppend | scripts/gitstats.py:98-108 | the rows of two blocks of output lines are the rows of the first block followed by those of the second |
| GitStats.ParseNumstat | scripts/gitstats.py:95-108 | every row returned is the reading of one line of the output |
| GitStats.NumstatLineRoundTrip | scripts/gitstats.py:98-107 | a `--numstat` row printed from counts and a tab-free path is read back as exactly that entry |
| GitStats.NumstatRoundTrip | scripts/gitstats.py:95-108 | parsing the numstat text of a list of text-file rows gives back the whole list, in order |
| GitStats.BinaryRowDropped | scripts/gitstats.py:102 | a binary file's `-\t-\tpath` row is not kept |
| GitStats.ParsePriorLog | scripts/gitstats.py:126-137 | git output that is missing or holds no space gives no prior edit, and a prior edit always has a non-empty author and a non-zero date; together these are the guard of the New Work branch |
| GitStats.PriorLogRoundTrip | scripts/gitstats.py:129-131 | `"<author> <date>"` reads back as that author and date, even when the author name holds spaces |
| GitStats.PriorLogFields | scripts/gitstats.py:127-137 | a line split at its last space into `a` and `d` gives no prior edit exactly when `int(d)` fails, `d` reads as 0 or `a` is blank; otherwise the prior edit is the stripped `a` at date `int(d)` |
| GitStats.FirstParent | scripts/gitstats.py:118-120 | there is no parent to ask about for a root commit or an empty first hash; otherwise it is the first parent hash |
| GitStats.PriorOf | scripts/gitstats.py:118-137 | without a usable first parent (a root commit or an empty first hash) there is no prior edit; with one, the prior edit is exactly the reading of git's log line for that parent and the path |
| GitStats.RootCommitIsNewWork | scripts/gitstats.py:118-137 | every file of a commit without parents is New Work |
| GitStats.ScanDiff | scripts/gitstats.py:158-165 | the scan's flags are true exactly when some line is an added line (`+`, not `+++`) or a removed line (`-`, not `---`) |
| GitStats.ScanSaysAdditive | scripts/gitstats.py:158-167 | the scan reports a purely additive diff exactly when some line adds and no line removes |
| GitStats.CategorizeFile | scripts/gitstats.py:110-170 | no history gives New Work; an edit older than three weeks gives Refactor exactly when more than 10 lines changed, else Churn/Rework; a recent edit by someone else gives Help Others; a recent own edit gives New Work exactly when the diff is purely additive, else Churn/Rework |
| GitStats.ThresholdAgeIsRecent | scripts/gitstats.py:140-150 | an edit exactly three weeks old still counts as recent |
| GitStats.FirstMaxIndex | scripts/gitstats.py:174 | `max(…, key=…)` returns the first position of greatest weight |
| GitStats.DetermineCommitCategory | scripts/gitstats.py:172-175 | the chosen category has the greatest weighted count, and every category declared before it has strictly less |
| GitStats.FirstMaxIsUnique | scripts/gitstats.py:172-175 | any category with the greatest weighted count and the declaration-order tie-break is the one chosen |
| GitStats.AllZeroIsRefactor | scripts/gitstats.py:16-21 | with no counts, all weights are 0 and the tie goes to Refactor |
| GitStats.ChurnTieGoesToRefactor | scripts/gitstats.py:16-21 | two Churn/Rework files against one Refactor file weigh 8 each, and Refactor wins |
| GitStats.CalculateEfficiency | scripts/gitstats.py:177-187 | for a non-empty change, efficiency × (insertions + deletions) = 100 × category weight × insertions, so the efficiency is the insertion share scaled by the weight; it is 0 for an empty change, lies between 0 and 100 × the weight, is 0 exactly when nothing was inserted and is the maximum exactly when nothing was deleted |
| GitStats.EfficiencyGrowsWithInsertions | scripts/gitstats.py:184-187 | more insertions against the same deletions never lower the efficiency |
| GitStats.EfficiencyFollowsDeclarationOrder | scripts/gitstats.py:178-183 | for the same change, a category declared earlier never scores lower |
| GitStats.ScriptTableShadowsConfig | scripts/gitstats.py:203-205 | the config extension list equals the document list |
| GitStats.Extension | scripts/gitstats.py:210 | a path without a dot has the empty extension; otherwise the extension is the lower-cased text after the path's last dot |
| GitStats.ExtensionOfName | scripts/gitstats.py:210 | `stem.ext` with a dot-free `ext` has the extension `ext` lower-cased, whatever dots the stem holds |
| GitStats.ImpactWeight | scripts/gitstats.py:211-219 | a file weighs 0.3, 0.6 or 0.7, and 0.3 whenever its extension is a document extension |
| GitStats.ScriptWeight | scripts/gitstats.py:203-219 | with the script's own lists a file weighs 0.6 exactly when its extension is a code extension and not a document extension, and 0.3 otherwise |
| GitStats.ImpactWeightCases | scripts/gitstats.py:211-219 | with the config list shadowed, a file weighs 0.6 exactly when its extension is a code extension and not a document extension, and 0.3 otherwise |
| GitStats.DottedCodeEntriesUnreachable | scripts/gitstats.py:204-210 | the code-list entries `1.ada` and `2.ada` never match an extension |
| GitStats.ScriptWeightInRange | scripts/gitstats.py:203-219 | every per-file weight the script uses lies between 0.3 and 0.6 |
| GitStats.WeightedVolumeBounds | scripts/gitstats.py:207-224 | the summed file impacts (`WeightedVolume`) lie between 0.3 and 0.6 per changed line |
| GitStats.WeightedVolumeAppend | scripts/gitstats.py:207-224 | the summed file impacts (`WeightedVolume`) of two groups of files is the sum of each group's |
| GitStats.SumFileImpacts | scripts/gitstats.py:207-224 | the summing loop computes Σ (insertions + deletions) × weight over the files |
| GitStats.CalculateRawImpact | scripts/gitstats.py:200-227 | the loop followed by `raw += len(files) * raw` computes the sum amplified by (1 + number of files) |
| GitStats.RawImpact | scripts/gitstats.py:227 | a commit without files has raw impact 0 |
| GitStats.RawImpactBounds | scripts/gitstats.py:207-227 | the raw impact lies between 0.3 and 0.6 × (1 + files) × changed lines |
| GitStats.RawImpactGrowsWithFiles | scripts/gitstats.py:207-227 | touching one more file never lowers the raw impact |
| GitStats.NormalizeImpact | scripts/gitstats.py:241-247 | the logistic score lies strictly between 1 and 100 |
| GitStats.NormalizeImpactMonotone | scripts/gitstats.py:247 | a larger raw impact, which means a smaller exponential term, never gives a smaller score |
| GitStats.ResolveAuthor | scripts/gitstats.py:89-92 | an author whose stripped name is no alias key keeps git's name, spaces included; otherwise the result is a name the users map stores under that stripped name |
| GitStats.Tally | scripts/gitstats.py:259-268 | each category's count is the number of files with that category |
| GitStats.TallyAddsUp | scripts/gitstats.py:259-268 | the four counts add up to the number of files |
| GitStats.SumsAddUp | scripts/gitstats.py:271-272 | total insertions plus total deletions is the total number of changed lines |
| GitStats.ProcessCommit | scripts/gitstats.py:250-293 | merges and commits without file rows give no record; otherwise the record carries the commit's fields, the mapped author, the file rows and their count and totals, the first-maximal category of the per-file tally, the efficiency of that category for the commit's totals and the raw impact |
| GitStats.ProcessedCountsAddUp | scripts/gitstats.py:259-284 | the per-category counts behind a record add up to its `total_files_changed` |
| GitStats.MappedAuthorOwnEditIsHelp | scripts/gitstats.py:89-92 | when the author is mapped, their own recent edit is classified as Help Others |
| GitStats.UserEntry | scripts/gitstats.py:36-44 | a line is skipped exactly when it holds no dash; a kept line's name, the text before the first dash, holds no dash (the value of every line: `GitStats.UserEntryOfLine`) |
| GitStats.UserEntryOfLine | scripts/gitstats.py:37-44 | every line with a dash yields the stripped text after its first dash as the alias, mapped to the stripped text before it as the name, even when the halves carry spaces |
| GitStats.LoadUsers | scripts/gitstats.py:33-45 | the loaded map holds each alias once, and every name in it is dash-free |
| GitStats.UserLineRoundTrip | scripts/gitstats.py:37-44 | a line `name-alias` yields `alias -> name`, with the split at the first dash |
| GitStats.LoadUsersLastWins | scripts/gitstats.py:33-45 | an alias maps to the author of the last line naming it |
| GitStats.ResolveWithUsersFile | scripts/gitstats.py:89-92 | with the map that `load_users` builds, a commit author whose stripped name is the alias of some users-file line becomes the name on the last such line; any other author keeps git's name |
| Dora.TeamEntry | scripts/dora-metrics.py:114-128 | a kept line has a non-blank developer and team, the developer holds no dash, and a line without a dash is skipped (the value of every line: `Dora.TeamEntryOfLine`) |
| Dora.TeamEntryOfLine | scripts/dora-metrics.py:115-128 | every line with a dash, split at its last dash, maps the stripped developer to the stripped team, and is skipped when either is blank |
| Dora.LoadTeamsMapping | scripts/dora-metrics.py:112-128 | the loaded map holds each developer once, under a non-blank dash-free name, with a non-blank team, and lists the developers in the order of their first lines in the file |
| Dora.TeamLineRoundTrip | scripts/dora-metrics.py:119-127 | a line `team-developer` maps the developer to the team, even when the team name holds dashes |
| Dora.LoadTeamsLastWins | scripts/dora-metrics.py:112-128 | a developer maps to the team of the last line naming them, and is absent when no line does |
| Dora.FirstCaseMatch | scripts/dora-metrics.py:161-164 | it returns the first key equal to the name ignoring case, or nothing when no key is |
| Dora.GetTeamForDeveloper | scripts/dora-metrics.py:152-167 | an empty name gives `Non`; an exact key wins; otherwise the first key equal ignoring case; otherwise `Non` |
| Dora.LoadedCaseMatch | scripts/dora-metrics.py:152-164 | a name that no line gives exactly gets the team of the last line naming the developer whose first line comes earliest among those equal to the name ignoring case |
| Dora.LoadedDeveloperTeam | scripts/dora-metrics.py:152-159 | a developer named in the teams file gets the team of the last line naming them |
| Dora.DigitRun | scripts/dora-metrics.py:185 | the `\d+` run at the front: every character in it is a digit, and the next one is not |
| Dora.CloseLength | scripts/dora-metrics.py:185 | the `\(\d+\)` group at the front has length `n` exactly when `(` + digits + `)` spans `n` characters |
| Dora.LazyFrom | scripts/dora-metrics.py:185 | the lazy `(.+?)` picks the shortest capture length that a digit group follows, and none exists when it finds none |
| Dora.BreakStopsCapture | scripts/dora-metrics.py:185 | no capture crosses a line break |
| Dora.MatchAt | scripts/dora-metrics.py:185-188 | a match extends past the tag, and its capture is non-empty and free of line breaks |
| Dora.MatchAtIsLazy | scripts/dora-metrics.py:185-188 | a match is the tag, the shortest fitting capture and its digit group; when there is no match, the tag is absent or no capture fits |
| Dora.FindAll | scripts/dora-metrics.py:188 | every capture found is non-empty and free of line breaks |
| Dora.FindAllSkips | scripts/dora-metrics.py:188 | text without a `#` contributes no match |
| Dora.MatchAtTagged | scripts/dora-metrics.py:185 | a whole tag at the front is matched with its name as the capture, even when the name holds spaces or a `)` |
| Dora.FindAllTagged | scripts/dora-metrics.py:188 | after a tag's match, scanning resumes right after its closing `)` |
| Dora.FindAllRendered | scripts/dora-metrics.py:185-188 | finding all tags in a space-separated row of tags gives back every name, in order |
| Dora.Clean | scripts/dora-metrics.py:192-201 | the cleaned products are pairwise distinct and non-empty |
| Dora.CleanInFirstSeenOrder | scripts/dora-metrics.py:192-201 | every product is the strip of some capture, and the products come in the order of their first stripped captures |
| Dora.CleanFromCaptures | scripts/dora-metrics.py:195-199 | every product is a stripped capture |
| Dora.CapturesInClean | scripts/dora-metrics.py:195-199 | every non-blank capture's stripped form is among the products |
| Dora.CleanOfDistinct | scripts/dora-metrics.py:192-201 | captures that are already stripped, non-blank and distinct come back unchanged and in order |
| Dora.ExtractProducts | scripts/dora-metrics.py:169-207 | a row with no match gives `["non"]`; otherwise the products are distinct and non-empty, each is a stripped capture, and they come in the order of their first stripped captures |
| Dora.ProductsAreCaptures | scripts/dora-metrics.py:188-201 | when the row has matches, the products are exactly the stripped non-blank captures, ordered by where each first occurs |
| Dora.UntaggedRowHasNoProduct | scripts/dora-metrics.py:179-207 | a row without `#` gives `["non"]` |
| Dora.ExtractRendered | scripts/dora-metrics.py:182-201 | a row of tags with distinct clean names gives back those names, in order |
| Dora.WithoutNoProduct | scripts/dora-metrics.py:215 | the filtered list holds every entry other than `non` as often as the list does, and no `non` |
| Dora.WithoutNoProductAppend | scripts/dora-metrics.py:215 | filtering two lists one after the other gives the filtered first list followed by the filtered second, so the filter keeps the list's order |
| Dora.WithoutNoProductOne | scripts/dora-metrics.py:215 | a single entry is dropped exactly when it is `non`, and kept as it is otherwise |
| Dora.WithoutNoProductKeepsOthers | scripts/dora-metrics.py:215 | a list without `non` passes the filter unchanged |
| Dora.StandardizeProducts | scripts/dora-metrics.py:209-221 | the text is `non` exactly when every entry is `non` or the list is empty; otherwise it is the `", "`-join of the entries other than `non` |
| Dora.StandardizeRealProducts | scripts/dora-metrics.py:214-221 | a non-empty list without `non` becomes its `", "`-join |
| Dora.ProcessProductsField | scripts/dora-metrics.py:223-226 | the standardised products field is never empty |
| Dora.ProcessRendered | scripts/dora-metrics.py:223-226 | a row of tags with distinct clean names becomes those names joined by `", "` |
| Dora.UntaggedRowIsNon | scripts/dora-metrics.py:223-226 | a row without tags is standardised to `non` |
| Dora.ParseDurationToMinutes | scripts/dora-metrics.py:341-360 | an empty duration, or one with fewer than three `:` fields, is unknown; a known duration has three fields that `float()` accepts |
| Dora.DurationOfFields | scripts/dora-metrics.py:347-355 | with at least three `:` fields whose first three `float()` accepts as `h`, `m` and `s`, the duration is `60·h + m + s/60` minutes, and any further fields are ignored |
| Dora.DurationRoundTrip | scripts/dora-metrics.py:347-355 | `H:M:S` written from whole numbers reads back as `60·H + M + S/60` minutes |
| Dora.LeadTimeHours | scripts/dora-metrics.py:671 | hours are present exactly when the minutes are known and non-zero, and hours × 60 is the minutes |
| Dora.LeadTimeDays | scripts/dora-metrics.py:672 | days are present exactly when the minutes are known and non-zero, and `days × 1440` is the minutes |
| Dora.LeadTimeDaysAreHours | scripts/dora-metrics.py:671-672 | the two fields are present together, and a day is 24 hours |
| CursorMetrics.CorporateEntry | scripts/cursor_metrics.py:112-128 | a kept line maps an identifier holding `@` and no dash to a dash-free name, and a line without a dash is skipped (the value of every line: `CursorMetrics.CorporateEntryOfLine`) |
| CursorMetrics.CorporateEntryOfLine | scripts/cursor_metrics.py:114-128 | every line of two or more dash-separated fields maps the stripped second field to the stripped first when that field holds `@`, and is skipped otherwise |
| CursorMetrics.LoadCorporateNames | scripts/cursor_metrics.py:111-133 | the loaded map holds each address once; every key holds `@` and no dash, and every name is dash-free |
| CursorMetrics.CorporateLineRoundTrip | scripts/cursor_metrics.py:118-125 | a line `name-email` maps the address to the name |
| CursorMetrics.HyphenatedEmailDropped | scripts/cursor_metrics.py:118-128 | an address with a dash before its `@` is cut at that dash, and its line maps nobody |
| CursorMetrics.CorporateKeysAreEmails | scripts/cursor_metrics.py:124-125 | every key of the loaded map holds `@` and no dash |
| CursorMetrics.CorporateLastWins | scripts/cursor_metrics.py:112-128 | an address maps to the name on the last line naming it |
| CursorMetrics.MemberEntry | scripts/cursor_metrics.py:154-160 | a payload entry is kept exactly when its e-mail is present and non-empty, and it is keyed by that e-mail |
| CursorMetrics.FetchTeamMembers | scripts/cursor_metrics.py:151-160 | a payload without `teamMembers` gives no members; the map holds each address once, and every key is the e-mail of some payload entry |
| CursorMetrics.MemberKeysNonEmpty | scripts/cursor_metrics.py:155-156 | no member is stored under the empty address |
| CursorMetrics.MemberLastWins | scripts/cursor_metrics.py:154-160 | an address maps to the name and role of the last entry carrying it, with `''` for a missing field |
| CursorMetrics.MemberWithoutEmailIgnored | scripts/cursor_metrics.py:155-156 | an entry without an e-mail leaves the member map unchanged |
| CursorMetrics.EmailOf | scripts/cursor_metrics.py:292 | a missing field gives the empty address; a non-empty address is the field's string value; a field holding something other than a string gives no address |
| CursorMetrics.Lookup | scripts/cursor_metrics.py:298-306 | an entry found is stored under the address, and an address that is a key always finds one |
| CursorMetrics.Assigned | scripts/cursor_metrics.py:295-306 | the copy keeps every original field name at its position and adds at most three fields |
| CursorMetrics.Enrich | scripts/cursor_metrics.py:291-306 | the enriched copy keeps every original field name at its position and adds at most three fields; `CursorMetrics.EnrichMeetsSpec` states the values |
| CursorMetrics.AssignedSets | scripts/cursor_metrics.py:299-306 | the three assignments set `memberName`, `memberRole` and `author` |
| CursorMetrics.AssignedKeeps | scripts/cursor_metrics.py:293-306 | every field of the copied record other than those three keeps its value |
| CursorMetrics.EnrichMeetsSpec | scripts/cursor_metrics.py:289-306 | an enriched record carries the member's name and role, or `''` for an unknown address, and the corporate name or the default author; every other field is unchanged, and the original fields come first in their order |
| CursorMetrics.EnrichAll | scripts/cursor_metrics.py:289-321 | one enriched copy per input, in input order |
| CursorMetrics.EnrichUsageData | scripts/cursor_metrics.py:287-321 | daily records are looked up by `email`, and an unmapped author is `non` |
| CursorMetrics.EnrichUsageEvents | scripts/cursor_metrics.py:338-380 | usage events are looked up by `userEmail`, and an unmapped author is `''` |
| CursorMetrics.UnknownAddressDefaults | scripts/cursor_metrics.py:301-306 | an address in neither map gets empty member fields and the default author |
| CursorMetrics.Midnight | scripts/cursor_metrics.py:748 | today's midnight is a whole number of days and the last such instant at or before now |
| CursorMetrics.SelectDateRange | scripts/cursor_metrics.py:740-749 | with both dates, both are used as given; with only a start, the window is `days` long from it; otherwise the window is `days` long and ends at today's midnight |
| CursorMetrics.EndDateAloneIgnored | scripts/cursor_metrics.py:740-749 | an end date given without a start date is ignored |

## Left out

- Elasticsearch, SQL Server and HTTP: connections, index creation, bulk indexing, throttling and pagination. These are I/O against services the model does not see.
- Running git. Its output is an input to the model (`History`, the numstat text, the commit details). When the diff command fails the script crashes on `None.split`. The model's diff oracle always answers, so that failure is not modelled.
- `get_commit_details` parsing: the parent hashes arrive already split into a list, and the commit date arrives already an integer.
- SHA-256 document ids (`generate_unique_id`, `_generate_document_id`). They are a foreign hash.
- Datetime handling: `fromtimestamp`, `isoformat`, `utcnow` and `strptime`. These are clock-, timezone- and library-dependent.
- The Cursor score calculator. It is imported from a module that is not part of this model.
- File opening, logging, counters and argument parsing. The loaders are modelled over the sequence of lines.
- Unicode. `Strip` removes the ASCII characters Python counts as whitespace (space, `\t\n\v\f\r` and `\x1c`–`\x1f`) only, `Lower` folds ASCII letters only, and `\d` and `isdigit` accept ASCII digits only. Python's versions cover all of Unicode.
- The `re.search(r'#\s*\(.*?\)', …)` test in `extract_products_from_string`. Both of its branches return `["non"]`, so it is collapsed.
- GitStats.CalculateEfficiency: it does not round to two decimals, because floating-point rounding is not modelled.
- GitStats.NormalizeImpact: `exp(-0.01·(raw − 500))` is a positive parameter, and the score is not rounded to one decimal.
- GitStats.ProcessCommit: the record stores the raw impact rather than the normalised, rounded score, and it leaves out the `date`/`dateString` strings and the project and repository names.
- Strings.ParseInt: Python's `int()` also accepts underscores between digits and non-ASCII digits. The model does not.
- Strings.ParseFloat: Python's `float()` also accepts exponents, `inf`, `nan` and underscores. The model does not.
- Dora.ParseDurationToMinutes: it does not round to two decimals. A positive duration below 0.005 minutes, which the script rounds to 0 and then treats as missing, keeps a lead time in the model.
- Dora.LeadTimeHours: it does not round to two decimals.
- Dora.LeadTimeDays: it does not round to two decimals.
- CursorMetrics.EnrichMeetsSpec: enrichment also adds fields that the model leaves out. These are the date strings, `eventTimestamp`, `_id`, `@timestamp` and `ingestionDate` (clock and hash), and, when the score calculator raises, `cursorScore`, `cursorScoreStatus` and `cursorScoreComponents` (`scripts/cursor_metrics.py:331-335`). "Every other field is unchanged" holds in the model only because those added fields are left out.
- CursorMetrics.FetchTeamMembers: the HTTP call and its error path are left out; on an error the script returns an empty map, as for a payload without `teamMembers`. JSON `null` values are treated as absent keys.
- CursorMetrics.SelectDateRange: dates are seconds of local wall-clock time. Daylight-saving shifts and the `YYYY-MM-DD` argument parsing are not modelled.
