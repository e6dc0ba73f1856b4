/**
 * The data-shaping helpers of `scripts/cursor_metrics.py`: the users file that
 * maps e-mail addresses to corporate names, the team-member map built from the
 * Cursor API payload, the member and author fields added to every usage record
 * and usage event, and the choice of the date window in `main`.
 */
module CursorMetrics {
  import opened Wrappers
  import opened Strings
  import OrderedMap

  // ---------------------------------------------------------------------------
  // _load_corporate_names
  // ---------------------------------------------------------------------------

  /** One line of the users file, `name-identifier`, split at EVERY dash: it gives
      `identifier -> name` when the stripped second field holds an `@`. */
  function CorporateEntry(line: string): (e: Option<(string, string)>)
    ensures e.Some? ==> '@' in e.value.0 && '-' !in e.value.0 && '-' !in e.value.1
    ensures '-' !in line ==> e.None?
  {
    var t := Strip(line);
    if t == [] then None
    else
      var parts := Split(t, '-');
      if |parts| >= 2 then
        var name, identifier := Strip(parts[0]), Strip(parts[1]);
        if '@' in identifier then Some((identifier, name)) else None
      else None
  }

  /** `_load_corporate_names` over the lines of the users file: each address once, and
      every key an e-mail address without a dash. */
  function LoadCorporateNames(lines: seq<string>): (m: seq<(string, string)>)
    ensures OrderedMap.DistinctKeys(m)
    ensures forall i :: 0 <= i < |m| ==> '@' in m[i].0 && '-' !in m[i].0 && '-' !in m[i].1
  {
    OrderedMap.CollectEntries(lines, CorporateEntry);
    OrderedMap.Collect(lines, CorporateEntry)
  }

  /** Every users-file line of two or more dash-separated fields: it maps the stripped
      second field to the stripped first when that field holds `@`, and nothing otherwise. */
  lemma CorporateEntryOfLine(line: string, a: string, b: string, rest: seq<string>)
    requires Split(Strip(line), '-') == [a, b] + rest
    ensures CorporateEntry(line) == if '@' in Strip(b) then Some((Strip(b), Strip(a))) else None
  {
    var t := Strip(line);
    var parts := Split(t, '-');
    assert |parts| >= 2 && parts[0] == a && parts[1] == b;
    assert t != [] by {
      assert '-' in t;
    }
  }

  /** A line `name-email` maps the e-mail address to the name. */
  lemma CorporateLineRoundTrip(name: string, email: string)
    requires name != [] && Strip(name) == name && '-' !in name
    requires '@' in email && Strip(email) == email && '-' !in email
    ensures CorporateEntry(name + "-" + email) == Some((email, name))
  {
    var line := name + "-" + email;
    assert line == name + ['-'] + email;
    assert Strip(line) == line by {
      assert line[0] == name[0];
      assert line[|line| - 1] == email[|email| - 1];
      StripUnchanged(line);
    }
    SplitOfGlue(name, '-', email);
    SplitWithoutSeparator(email, '-');
  }

  /** An address with a dash before its `@` is cut at that dash, and the line is
      dropped: `Ayşe-ayse-k@corp.com` maps nobody. */
  lemma HyphenatedEmailDropped(name: string, local: string, rest: string)
    requires name != [] && !IsSpace(name[0]) && '-' !in name
    requires '-' !in local && '@' !in local
    requires rest != [] && !IsSpace(rest[|rest| - 1])
    ensures CorporateEntry(name + "-" + local + "-" + rest) == None
  {
    var line := name + "-" + local + "-" + rest;
    assert Strip(line) == line by {
      assert line[0] == name[0];
      assert line[|line| - 1] == rest[|rest| - 1];
      StripUnchanged(line);
    }
    SecondField(name, local, rest);
  }

  /** Splitting at every dash puts the text between the first two dashes second. */
  lemma SecondField(first: string, second: string, rest: string)
    requires '-' !in first && '-' !in second
    ensures var parts := Split(first + "-" + second + "-" + rest, '-'); |parts| >= 2 && parts[1] == second
  {
    assert first + "-" + second + "-" + rest == first + ['-'] + (second + ['-'] + rest);
    SplitOfGlue(first, '-', second + ['-'] + rest);
    SplitOfGlue(second, '-', rest);
  }

  /** Every key of the loaded map is an e-mail address without a dash. */
  lemma CorporateKeysAreEmails(lines: seq<string>, key: string)
    requires OrderedMap.Get(LoadCorporateNames(lines), key).Some?
    ensures '@' in key && '-' !in key
  {
    OrderedMap.CollectLastWins(lines, CorporateEntry, key);
  }

  /** An address maps to the name on the last line naming it. */
  lemma CorporateLastWins(lines: seq<string>, email: string)
    ensures OrderedMap.LastYield(lines, CorporateEntry, email).None? ==>
      OrderedMap.Get(LoadCorporateNames(lines), email).None?
    ensures OrderedMap.LastYield(lines, CorporateEntry, email).Some? ==>
      OrderedMap.Get(LoadCorporateNames(lines), email)
        == Some(CorporateEntry(lines[OrderedMap.LastYield(lines, CorporateEntry, email).value]).value.1)
  {
    OrderedMap.CollectLastWins(lines, CorporateEntry, email);
  }

  // ---------------------------------------------------------------------------
  // fetch_team_members
  // ---------------------------------------------------------------------------

  /** One element of the payload's `teamMembers` list; `None` is an absent key. */
  datatype MemberJson = MemberJson(email: Option<string>, name: Option<string>, role: Option<string>)

  /** The `{'name': …, 'role': …}` value stored for a member. */
  datatype MemberInfo = MemberInfo(name: string, role: string)

  /** A payload entry is kept under its e-mail address when that is non-empty;
      a missing name or role becomes `''`. */
  function MemberEntry(m: MemberJson): (e: Option<(string, MemberInfo)>)
    ensures e.Some? <==> m.email.Some? && m.email.value != []
    ensures e.Some? ==> e.value.0 == m.email.value
  {
    var email := m.email.GetOr("");
    if email != [] then Some((email, MemberInfo(m.name.GetOr(""), m.role.GetOr("")))) else None
  }

  /** `fetch_team_members` on the decoded response; `None` is a payload without `teamMembers`. */
  function FetchTeamMembers(teamMembers: Option<seq<MemberJson>>): (m: seq<(string, MemberInfo)>)
    ensures OrderedMap.DistinctKeys(m)
    ensures teamMembers.None? ==> m == []
    ensures forall i :: 0 <= i < |m| ==>
      exists j :: 0 <= j < |teamMembers.value| && teamMembers.value[j].email == Some(m[i].0)
  {
    OrderedMap.CollectEntries(teamMembers.GetOr([]), MemberEntry);
    OrderedMap.Collect(teamMembers.GetOr([]), MemberEntry)
  }

  /** No member is stored under the empty address. */
  lemma MemberKeysNonEmpty(teamMembers: Option<seq<MemberJson>>)
    ensures OrderedMap.Get(FetchTeamMembers(teamMembers), "").None?
  {
    OrderedMap.CollectLastWins(teamMembers.GetOr([]), MemberEntry, "");
  }

  /** An address maps to the name and role of the last payload entry carrying it,
      with `''` for a missing field; an address no entry carries is absent. */
  lemma MemberLastWins(teamMembers: seq<MemberJson>, email: string)
    ensures OrderedMap.LastYield(teamMembers, MemberEntry, email).None? ==>
      OrderedMap.Get(FetchTeamMembers(Some(teamMembers)), email).None?
    ensures OrderedMap.LastYield(teamMembers, MemberEntry, email).Some? ==>
      var m := teamMembers[OrderedMap.LastYield(teamMembers, MemberEntry, email).value];
      OrderedMap.Get(FetchTeamMembers(Some(teamMembers)), email)
        == Some(MemberInfo(m.name.GetOr(""), m.role.GetOr("")))
  {
    OrderedMap.CollectLastWins(teamMembers, MemberEntry, email);
  }

  /** An entry without an address changes nothing. */
  lemma MemberWithoutEmailIgnored(teamMembers: seq<MemberJson>, m: MemberJson)
    requires m.email.GetOr("") == ""
    ensures FetchTeamMembers(Some(teamMembers + [m])) == FetchTeamMembers(Some(teamMembers))
  {
    assert (teamMembers + [m])[..|teamMembers|] == teamMembers;
  }

  // ---------------------------------------------------------------------------
  // enrich_usage_data / enrich_usage_events: the member and author fields
  // ---------------------------------------------------------------------------

  /** A JSON value of a usage record. */
  datatype Json = Str(s: string) | Num(n: int) | Null

  /** A usage record: its fields in insertion order. */
  type Record = seq<(string, Json)>

  /** The fields enrichment sets from the member and corporate maps. */
  const MemberNameField: string := "memberName"
  const MemberRoleField: string := "memberRole"
  const AuthorField: string := "author"

  /** `record.get(key, '')`: the address to look up, or `None` when the field holds
      a value that is not a string and so matches no key of either map. */
  function EmailOf(record: Record, key: string): (email: Option<string>)
    ensures OrderedMap.Get(record, key).None? ==> email == Some("")
    ensures email.Some? && email.value != "" ==> OrderedMap.Get(record, key) == Some(Str(email.value))
    ensures email.None? <==> OrderedMap.Get(record, key).Some? && !OrderedMap.Get(record, key).value.Str?
  {
    match OrderedMap.Get(record, key)
    case None => Some("")
    case Some(v) => if v.Str? then Some(v.s) else None
  }

  /** The entry of `m` under the address, if there is an address and an entry. */
  function Lookup<V>(m: seq<(string, V)>, email: Option<string>): (r: Option<V>)
    ensures r.Some? ==> email.Some? && exists i :: 0 <= i < |m| && m[i] == (email.value, r.value)
    ensures email.Some? && (exists i :: 0 <= i < |m| && m[i].0 == email.value) ==> r.Some?
  {
    if email.Some? then OrderedMap.Get(m, email.value) else None
  }

  /**
   What enriching `before` into `after` promises: the member's name and role, or
   `''` for an unknown address; the corporate name, or `defaultAuthor`; every
   other field unchanged; the original fields first, in their order.
   */
  ghost predicate Enriched(before: Record, after: Record, emailKey: string,
                           members: seq<(string, MemberInfo)>, corporate: seq<(string, string)>,
                           defaultAuthor: string)
  {
    var email := EmailOf(before, emailKey);
    var member := Lookup(members, email);
    && OrderedMap.Get(after, MemberNameField) == Some(Str(if member.Some? then member.value.name else ""))
    && OrderedMap.Get(after, MemberRoleField) == Some(Str(if member.Some? then member.value.role else ""))
    && OrderedMap.Get(after, AuthorField) == Some(Str(Lookup(corporate, email).GetOr(defaultAuthor)))
    && (forall k :: k != MemberNameField && k != MemberRoleField && k != AuthorField ==>
          OrderedMap.Get(after, k) == OrderedMap.Get(before, k))
    && |before| <= |after|
    && (forall i :: 0 <= i < |before| ==> after[i].0 == before[i].0)
  }

  /** The record after the three assignments of enrichment. */
  function Assigned(record: Record, name: Json, role: Json, author: Json): (r: Record)
    ensures |record| <= |r| <= |record| + 3
    ensures forall i :: 0 <= i < |record| ==> r[i].0 == record[i].0
  {
    OrderedMap.Put(OrderedMap.Put(OrderedMap.Put(record, MemberNameField, name), MemberRoleField, role),
                   AuthorField, author)
  }

  /** The copy of one record with `memberName`, `memberRole` and `author` assigned. */
  function Enrich(record: Record, emailKey: string, members: seq<(string, MemberInfo)>,
                  corporate: seq<(string, string)>, defaultAuthor: string): (r: Record)
    ensures |record| <= |r| <= |record| + 3
    ensures forall i :: 0 <= i < |record| ==> r[i].0 == record[i].0
  {
    var email := EmailOf(record, emailKey);
    var member := Lookup(members, email);
    var info := if member.Some? then member.value else MemberInfo("", "");
    Assigned(record, Str(info.name), Str(info.role), Str(Lookup(corporate, email).GetOr(defaultAuthor)))
  }

  /** One enriched record meets the promise. */
  lemma EnrichMeetsSpec(record: Record, emailKey: string, members: seq<(string, MemberInfo)>,
                        corporate: seq<(string, string)>, defaultAuthor: string)
    ensures Enriched(record, Enrich(record, emailKey, members, corporate, defaultAuthor),
                     emailKey, members, corporate, defaultAuthor)
  {
    var email := EmailOf(record, emailKey);
    var member := Lookup(members, email);
    var info := if member.Some? then member.value else MemberInfo("", "");
    var author := Str(Lookup(corporate, email).GetOr(defaultAuthor));
    AssignedSets(record, Str(info.name), Str(info.role), author);
    forall k | k != MemberNameField && k != MemberRoleField && k != AuthorField
      ensures OrderedMap.Get(Assigned(record, Str(info.name), Str(info.role), author), k) == OrderedMap.Get(record, k)
    {
      AssignedKeeps(record, Str(info.name), Str(info.role), author, k);
    }
  }

  lemma FieldNamesDiffer()
    ensures MemberNameField != MemberRoleField && MemberNameField != AuthorField && MemberRoleField != AuthorField
  {
    assert MemberNameField[6] != MemberRoleField[6];
  }

  /** The three assignments set the three fields. */
  lemma AssignedSets(record: Record, name: Json, role: Json, author: Json)
    ensures OrderedMap.Get(Assigned(record, name, role, author), MemberNameField) == Some(name)
    ensures OrderedMap.Get(Assigned(record, name, role, author), MemberRoleField) == Some(role)
    ensures OrderedMap.Get(Assigned(record, name, role, author), AuthorField) == Some(author)
  {
    FieldNamesDiffer();
    var r1 := OrderedMap.Put(record, MemberNameField, name);
    var r2 := OrderedMap.Put(r1, MemberRoleField, role);
    OrderedMap.PutGet(record, MemberNameField, name);
    OrderedMap.PutGet(r1, MemberRoleField, role);
    OrderedMap.PutGet(r2, AuthorField, author);
  }

  /** The three assignments keep every other field. */
  lemma AssignedKeeps(record: Record, name: Json, role: Json, author: Json, k: string)
    requires k != MemberNameField && k != MemberRoleField && k != AuthorField
    ensures OrderedMap.Get(Assigned(record, name, role, author), k) == OrderedMap.Get(record, k)
  {
    var r1 := OrderedMap.Put(record, MemberNameField, name);
    var r2 := OrderedMap.Put(r1, MemberRoleField, role);
    OrderedMap.PutGet(record, MemberNameField, name);
    OrderedMap.PutGet(r1, MemberRoleField, role);
    OrderedMap.PutGet(r2, AuthorField, author);
  }

  /** The loop shared by both enrichers: one enriched copy per input, in input order. */
  method EnrichAll(records: seq<Record>, emailKey: string, members: seq<(string, MemberInfo)>,
                   corporate: seq<(string, string)>, defaultAuthor: string) returns (out: seq<Record>)
    ensures |out| == |records|
    ensures forall i :: 0 <= i < |records| ==>
      Enriched(records[i], out[i], emailKey, members, corporate, defaultAuthor)
  {
    out := [];
    for i := 0 to |records|
      invariant |out| == i
      invariant forall j :: 0 <= j < i ==>
        Enriched(records[j], out[j], emailKey, members, corporate, defaultAuthor)
    {
      EnrichMeetsSpec(records[i], emailKey, members, corporate, defaultAuthor);
      out := out + [Enrich(records[i], emailKey, members, corporate, defaultAuthor)];
    }
  }

  /** `enrich_usage_data`: records keyed by `email`; an unknown author is `non`. */
  method EnrichUsageData(records: seq<Record>, members: seq<(string, MemberInfo)>,
                         corporate: seq<(string, string)>) returns (out: seq<Record>)
    ensures |out| == |records|
    ensures forall i :: 0 <= i < |records| ==> Enriched(records[i], out[i], "email", members, corporate, "non")
  {
    out := EnrichAll(records, "email", members, corporate, "non");
  }

  /** `enrich_usage_events`: events keyed by `userEmail`; an unknown author is `''`. */
  method EnrichUsageEvents(events: seq<Record>, members: seq<(string, MemberInfo)>,
                           corporate: seq<(string, string)>) returns (out: seq<Record>)
    ensures |out| == |events|
    ensures forall i :: 0 <= i < |events| ==> Enriched(events[i], out[i], "userEmail", members, corporate, "")
  {
    out := EnrichAll(events, "userEmail", members, corporate, "");
  }

  /** A record whose address nobody mapped gets empty member fields and the default author. */
  lemma UnknownAddressDefaults(record: Record, emailKey: string, members: seq<(string, MemberInfo)>,
                               corporate: seq<(string, string)>, defaultAuthor: string, after: Record)
    requires Enriched(record, after, emailKey, members, corporate, defaultAuthor)
    requires EmailOf(record, emailKey).Some?
    requires forall i :: 0 <= i < |members| ==> members[i].0 != EmailOf(record, emailKey).value
    requires forall i :: 0 <= i < |corporate| ==> corporate[i].0 != EmailOf(record, emailKey).value
    ensures OrderedMap.Get(after, MemberNameField) == Some(Str(""))
    ensures OrderedMap.Get(after, MemberRoleField) == Some(Str(""))
    ensures OrderedMap.Get(after, AuthorField) == Some(Str(defaultAuthor))
  {
  }

  // ---------------------------------------------------------------------------
  // main: the date window
  // ---------------------------------------------------------------------------

  const DaySeconds: int := 86400

  /** A window of local wall-clock time, in seconds. */
  datatype Window = Window(start: int, end: int)

  /** `datetime.now().replace(hour=0, minute=0, second=0, microsecond=0)`. */
  function Midnight(now: int): (m: int)
    ensures m % DaySeconds == 0 && m <= now < m + DaySeconds
  {
    now - now % DaySeconds
  }

  /**
   The window `main` fetches: both dates when both are given; `days` days from
   the start when only the start is given; otherwise the `days` days ending at
   today's midnight. An end date given alone is ignored.
   */
  function SelectDateRange(startDate: Option<int>, endDate: Option<int>, days: int, now: int): (w: Window)
    ensures startDate.Some? ==> w.start == startDate.value
    ensures startDate.Some? && endDate.Some? ==> w.end == endDate.value
    ensures startDate.Some? && endDate.None? ==> w.end - w.start == days * DaySeconds
    ensures startDate.None? ==> w.end - w.start == days * DaySeconds
    ensures startDate.None? ==> w.end % DaySeconds == 0 && w.end <= now < w.end + DaySeconds
  {
    match (startDate, endDate)
    case (Some(s), Some(e)) => Window(s, e)
    case (Some(s), None) => Window(s, s + days * DaySeconds)
    case (None, _) =>
      var end := Midnight(now);
      Window(end - days * DaySeconds, end)
  }

  /** Giving only an end date is the same as giving no date at all. */
  lemma EndDateAloneIgnored(endDate: int, days: int, now: int)
    ensures SelectDateRange(None, Some(endDate), days, now) == SelectDateRange(None, None, days, now)
  {
  }
}
