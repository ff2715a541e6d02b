/** services/utils.py: the shared column layout of a statistics table, the
    win-rate formula, the completion of a table against the roster, and the
    pure part of `update_champions_assets` that derives the roster. */
module Utils {
  import opened Outcomes
  import opened Text

  datatype Provider = OpGG | BlitzGG

  /** The string the `Providers` class assigns to each provider. */
  function ProviderTag(p: Provider): string {
    match p
    case OpGG => "OP.GG"
    case BlitzGG => "BLITZ.GG"
  }

  /** Values of the ChampionId column. Provider rows carry the integer id the
      provider sent; placeholder rows carry the roster's string key. Python
      compares the two kinds as unequal (`1 != "1"`), and so does this type. */
  datatype ChampionId = IntId(n: int) | KeyId(key: string)

  /** Values of the Winrate column. The percentage is kept as an exact
      rational; `PercentText(v)` stands for the string `f"{v}%"`. */
  datatype WinRate =
    | PercentText(value: real)
    | Percent(value: real)
    | Literal(text: string)

  /** One row across the columns of `ChampionsData`. `role` is the value the
      Role column shows for this row once the table is built, also when that
      column is a single broadcast value. */
  datatype Row = Row(
    id: ChampionId,
    name: string,
    role: string,
    totalGames: int,
    wins: int,
    losses: int,
    winrate: WinRate)

  /** The Role column: a list with one entry per row, or a single value that
      `_sanitize_data` wrote over the list. */
  datatype RoleColumn = RoleList | RoleScalar(value: string)

  /** The `ChampionsData` dict after `_sanitize_data` has set its Provider
      column to a single provider tag. */
  datatype ChampionsData = ChampionsData(provider: Provider, roles: RoleColumn, rows: seq<Row>)

  /** The contents of `champions_names_by_id.json`: roster key to display name,
      in the dict's insertion order. */
  type Roster = seq<(string, string)>

  /** `roster[key]`; a missing key (KeyError in Python) is `None`. */
  function Lookup(roster: Roster, key: string): (r: Option<string>)
    ensures r.None? <==> forall i :: 0 <= i < |roster| ==> roster[i].0 != key
    ensures r.Some? ==> exists i :: 0 <= i < |roster| && roster[i] == (key, r.value)
  {
    if |roster| == 0 then None
    else if roster[0].0 == key then Some(roster[0].1)
    else Lookup(roster[1..], key)
  }

  /** Dict keys are unique. */
  predicate DistinctKeys(roster: Roster) {
    forall i, j :: 0 <= i < j < |roster| ==> roster[i].0 != roster[j].0
  }

  lemma LookupEntry(roster: Roster, i: int)
    requires DistinctKeys(roster) && 0 <= i < |roster|
    ensures Lookup(roster, roster[i].0) == Some(roster[i].1)
  {
  }

  /** Python `x in self.champions_data["ChampionId"]`. */
  predicate HasId(rows: seq<Row>, id: ChampionId) {
    exists i :: 0 <= i < |rows| && rows[i].id == id
  }

  /** Python `x in self.champions_data["ChampionName"]`. */
  predicate HasName(rows: seq<Row>, name: string) {
    exists i :: 0 <= i < |rows| && rows[i].name == name
  }

  /** `__len__`: the length of the ChampionId column. */
  function Len(data: ChampionsData): nat {
    |data.rows|
  }

  /** `__contains__`: whether an integer id is in the ChampionId column. */
  predicate Contains(data: ChampionsData, item: int) {
    HasId(data.rows, IntId(item))
  }

  /** `self.champions_names[str(champion_id)]`: an id the roster does not know
      raises KeyError. */
  function ChampionName(roster: Roster, championId: int): (r: Result<string>)
    ensures r.Ok? <==> HasKey(roster, IntToString(championId))
    ensures r.Ok? ==> (IntToString(championId), r.value) in roster
    ensures r.Ok? ==> Lookup(roster, IntToString(championId)) == Some(r.value)
    ensures r.Err? ==> r.error == UnknownChampion(IntToString(championId))
  {
    match Lookup(roster, IntToString(championId))
    case None => Err(UnknownChampion(IntToString(championId)))
    case Some(name) => Ok(name)
  }

  /** Every row's name is the roster's name for its id: the integer id read
      through `str`, or the roster key itself. */
  ghost predicate NamesFromRoster(rows: seq<Row>, roster: Roster) {
    forall row :: row in rows ==>
      match row.id
      case IntId(n) => Lookup(roster, IntToString(n)) == Some(row.name)
      case KeyId(k) => Lookup(roster, k) == Some(row.name)
  }

  /** The `format_type` argument: `str`, or any other type. */
  datatype FormatType = StrFormat | NumberFormat

  /** `calculate_winrate_percentage`: `wins / (wins + loses) * 100` when `loses`
      is non-zero (Python truthiness), `wins / games * 100` otherwise; a zero
      divisor raises ZeroDivisionError. */
  function CalculateWinratePercentage(format: FormatType, wins: int, games: int, loses: int := 0): (r: Result<WinRate>)
    ensures r.Err? <==> (if loses != 0 then wins + loses == 0 else games == 0)
    ensures r.Err? ==> r.error == ZeroDivision
    ensures r.Ok? ==> !r.value.Literal? && (r.value.PercentText? <==> format == StrFormat)
    ensures r.Ok? && loses != 0 ==> r.value.value * (wins + loses) as real == (100 * wins) as real
    ensures r.Ok? && loses == 0 ==> r.value.value * games as real == (100 * wins) as real
  {
    var divisor := if loses != 0 then wins + loses else games;
    if divisor == 0 then Err(ZeroDivision)
    else
      var percentage := wins as real / divisor as real * 100.0;
      Ok(if format == StrFormat then PercentText(percentage) else Percent(percentage))
  }

  /** For a real record (`0 <= wins <= games`, `games > 0`) the percentage lies in [0, 100]. */
  lemma WinratePercentageInRange(format: FormatType, wins: int, games: int)
    requires 0 <= wins <= games && games > 0
    ensures CalculateWinratePercentage(format, wins, games).Ok?
    ensures 0.0 <= CalculateWinratePercentage(format, wins, games).value.value <= 100.0
  {
    var v := CalculateWinratePercentage(format, wins, games).value.value;
    assert v * games as real == (100 * wins) as real;
  }

  /** The two branches agree when `loses` is the true loss count: passing
      `loses = games - wins` (non-zero) gives the same value as the default. */
  lemma WinrateBranchesAgree(format: FormatType, wins: int, games: int)
    requires games - wins != 0 && games != 0
    ensures CalculateWinratePercentage(format, wins, games, games - wins)
         == CalculateWinratePercentage(format, wins, games)
  {
  }

  /** The row `complete_missing_champions_data` appends for a missing roster entry. */
  function Placeholder(key: string, name: string): (r: Row)
    ensures r.id == KeyId(key) && r.id.KeyId?
    ensures r.name == name && r.totalGames == 0 && r.wins + r.losses == r.totalGames
  {
    Row(KeyId(key), name, "-", 0, 0, 0, Literal("0%"))
  }

  /** What `complete_missing_champions_data` prints at the end. */
  datatype MissingReport =
    | NoMissingChampions
    | AddedMissingChampions(count: nat, names: seq<string>)

  function MissingNames(report: MissingReport): seq<string> {
    if report.NoMissingChampions? then [] else report.names
  }

  /** Every roster key reads as an integer under `int(...)`. */
  predicate IntegerKeys(roster: Roster) {
    forall e :: e in roster ==> ParseInt(e.0).Some?
  }

  /** The test in the completion loop, for a key that reads as `id`. */
  predicate NeedsPlaceholder(rows: seq<Row>, id: int, name: string) {
    !HasId(rows, IntId(id)) || !HasName(rows, name)
  }

  /** `after` is `before` followed by one placeholder per name in `missing`,
      each built from an entry of `roster` carrying that name. */
  ghost predicate AppendsPlaceholders(before: seq<Row>, after: seq<Row>, missing: seq<string>, roster: Roster) {
    && |after| == |before| + |missing|
    && after[..|before|] == before
    && forall i :: 0 <= i < |missing| ==>
         exists e :: e in roster && e.1 == missing[i] && after[|before| + i] == Placeholder(e.0, e.1)
  }

  /** The completion loop over `entries`, from a table with rows `rows`;
      returns the final rows and the names of the appended placeholders. The
      test for each entry sees the rows appended for earlier entries. */
  function CompleteRows(roles: RoleColumn, rows: seq<Row>, entries: Roster): (r: Result<(seq<Row>, seq<string>)>)
    ensures r.Ok? ==> AppendsPlaceholders(rows, r.value.0, r.value.1, entries)
    ensures r.Ok? ==> forall e :: e in entries ==> HasName(r.value.0, e.1)
    ensures r.Ok? ==> forall e :: e in entries ==>
              ParseInt(e.0).Some? && (HasId(r.value.0, IntId(ParseInt(e.0).value)) || HasId(r.value.0, KeyId(e.0)))
    ensures r.Ok? && roles.RoleScalar? ==> r.value.0 == rows
    ensures r.Err? ==>
              || (roles.RoleScalar? && r.error == ScalarRoleAppend)
              || (exists e :: e in entries && ParseInt(e.0).None? && r.error == InvalidLiteral(e.0))
    ensures roles.RoleList? && IntegerKeys(entries) ==> r.Ok?
    decreases |entries|
  {
    if |entries| == 0 then Ok((rows, []))
    else
      var (key, name) := entries[0];
      match ParseInt(key)
      case None => Err(InvalidLiteral(key))
      case Some(id) =>
        if NeedsPlaceholder(rows, id, name) then
          if roles.RoleScalar? then Err(ScalarRoleAppend)
          else
            var grown := rows + [Placeholder(key, name)];
            var rest :- CompleteRows(roles, grown, entries[1..]);
            assert rest.0[..|grown|][|rows|] == Placeholder(key, name);
            Ok((rest.0, [name] + rest.1))
        else
          CompleteRows(roles, rows, entries[1..])
  }

  datatype Completed = Completed(data: ChampionsData, report: MissingReport)

  /** `complete_missing_champions_data`: appends a placeholder for every roster
      entry whose integer key is not among the ids or whose name is not among
      the names, and reports the appended names. */
  function CompleteMissingChampionsData(data: ChampionsData, roster: Roster): (r: Result<Completed>)
    ensures r.Ok? ==> r.value.data.provider == data.provider && r.value.data.roles == data.roles
    ensures r.Ok? ==> AppendsPlaceholders(data.rows, r.value.data.rows, MissingNames(r.value.report), roster)
    ensures r.Ok? ==> (r.value.report.NoMissingChampions? <==> r.value.data.rows == data.rows)
    ensures r.Ok? && r.value.report.AddedMissingChampions? ==> r.value.report.count == |r.value.report.names|
    ensures r.Ok? ==> forall e :: e in roster ==> HasName(r.value.data.rows, e.1)
    ensures r.Ok? && data.roles.RoleScalar? ==> r.value.data.rows == data.rows
    ensures r.Err? ==>
              || (data.roles.RoleScalar? && r.error == ScalarRoleAppend)
              || (exists e :: e in roster && ParseInt(e.0).None? && r.error == InvalidLiteral(e.0))
    ensures data.roles.RoleList? && IntegerKeys(roster) ==> r.Ok?
    ensures r.Ok? ==> IntegerKeys(roster)
  {
    var (rows, missing) :- CompleteRows(data.roles, data.rows, roster);
    var report := if |missing| == 0 then NoMissingChampions else AddedMissingChampions(|missing|, missing);
    Ok(Completed(data.(rows := rows), report))
  }

  /** No two roster entries carry the same display name. */
  predicate DistinctNames(roster: Roster) {
    forall i, j :: 0 <= i < j < |roster| ==> roster[i].1 != roster[j].1
  }

  /** The roster entries that fail the completion test against `rows`, in
      roster order: a reference filter that looks only at the rows given. */
  function MissingEntries(rows: seq<Row>, entries: Roster): Roster
    requires IntegerKeys(entries)
  {
    if |entries| == 0 then []
    else
      var e := entries[0];
      (if NeedsPlaceholder(rows, ParseInt(e.0).value, e.1) then [e] else []) + MissingEntries(rows, entries[1..])
  }

  /** The filter keeps roster entries only, and only those that need a placeholder. */
  lemma {:induction false} MissingEntriesNeedPlaceholder(rows: seq<Row>, entries: Roster)
    requires IntegerKeys(entries)
    ensures forall e :: e in MissingEntries(rows, entries) ==>
              e in entries && NeedsPlaceholder(rows, ParseInt(e.0).value, e.1)
    decreases |entries|
  {
    if |entries| > 0 {
      var tail := entries[1..];
      assert forall e :: e in tail ==> e in entries;
      MissingEntriesNeedPlaceholder(rows, tail);
      assert entries[0] in entries;
    }
  }

  function PlaceholdersFor(entries: Roster): seq<Row> {
    seq(|entries|, i requires 0 <= i < |entries| => Placeholder(entries[i].0, entries[i].1))
  }

  function NamesOf(entries: Roster): seq<string> {
    seq(|entries|, i requires 0 <= i < |entries| => entries[i].1)
  }

  /** Appending rows with string keys and other names leaves the completion
      test of an entry unchanged. */
  lemma AppendKeyedKeepsTest(rows: seq<Row>, extra: seq<Row>, id: int, name: string)
    requires forall r :: r in extra ==> r.id.KeyId? && r.name != name
    ensures NeedsPlaceholder(rows + extra, id, name) == NeedsPlaceholder(rows, id, name)
  {
    if HasId(rows + extra, IntId(id)) {
      var i :| 0 <= i < |rows + extra| && (rows + extra)[i].id == IntId(id);
    }
    if HasId(rows, IntId(id)) {
      var i :| 0 <= i < |rows| && rows[i].id == IntId(id);
      assert (rows + extra)[i] == rows[i];
    }
    if HasName(rows + extra, name) {
      var i :| 0 <= i < |rows + extra| && (rows + extra)[i].name == name;
    }
    if HasName(rows, name) {
      var i :| 0 <= i < |rows| && rows[i].name == name;
      assert (rows + extra)[i] == rows[i];
    }
  }

  lemma TailOfRoster(entries: Roster)
    requires |entries| > 0 && IntegerKeys(entries) && DistinctNames(entries)
    ensures IntegerKeys(entries[1..]) && DistinctNames(entries[1..])
    ensures ParseInt(entries[0].0).Some?
    ensures forall e :: e in entries[1..] ==> e.1 != entries[0].1
  {
    var tail := entries[1..];
    assert entries[0] in entries;
    assert forall e :: e in tail ==> e in entries;
    forall i, j | 0 <= i < j < |tail| ensures tail[i].1 != tail[j].1 {
      assert tail[i] == entries[i + 1] && tail[j] == entries[j + 1];
    }
    forall e | e in tail ensures e.1 != entries[0].1 {
      var j :| 0 <= j < |tail| && tail[j] == e;
      assert entries[0].1 != entries[j + 1].1;
    }
  }

  lemma CompleteRowsSkip(roles: RoleColumn, rows: seq<Row>, entries: Roster)
    requires |entries| > 0 && ParseInt(entries[0].0).Some?
    requires !NeedsPlaceholder(rows, ParseInt(entries[0].0).value, entries[0].1)
    ensures CompleteRows(roles, rows, entries) == CompleteRows(roles, rows, entries[1..])
  {
  }

  lemma CompleteRowsAppend(rows: seq<Row>, entries: Roster)
    requires |entries| > 0 && ParseInt(entries[0].0).Some?
    requires NeedsPlaceholder(rows, ParseInt(entries[0].0).value, entries[0].1)
    requires CompleteRows(RoleList, rows + [Placeholder(entries[0].0, entries[0].1)], entries[1..]).Ok?
    ensures var rest := CompleteRows(RoleList, rows + [Placeholder(entries[0].0, entries[0].1)], entries[1..]).value;
      CompleteRows(RoleList, rows, entries) == Ok((rest.0, [entries[0].1] + rest.1))
  {
  }

  /** The rows and names completion produces when `missing` are the entries
      that still need a placeholder against `rows`. */
  function FilteredResult(rows: seq<Row>, missing: Roster): (seq<Row>, seq<string>) {
    (rows + PlaceholdersFor(missing), NamesOf(missing))
  }

  lemma FilteredResultCons(base: seq<Row>, e: (string, string), missing: Roster)
    ensures FilteredResult(base + [Placeholder(e.0, e.1)], missing).0 == FilteredResult(base, [e] + missing).0
    ensures [e.1] + FilteredResult(base + [Placeholder(e.0, e.1)], missing).1 == FilteredResult(base, [e] + missing).1
  {
    assert PlaceholdersFor([e] + missing) == [Placeholder(e.0, e.1)] + PlaceholdersFor(missing);
    assert NamesOf([e] + missing) == [e.1] + NamesOf(missing);
    assert base + [Placeholder(e.0, e.1)] + PlaceholdersFor(missing)
        == base + ([Placeholder(e.0, e.1)] + PlaceholdersFor(missing));
  }

  lemma FilterAppendStep(rows: seq<Row>, extra: seq<Row>, entries: Roster)
    requires |entries| > 0 && IntegerKeys(entries)
    requires NeedsPlaceholder(rows + extra, ParseInt(entries[0].0).value, entries[0].1)
    requires NeedsPlaceholder(rows, ParseInt(entries[0].0).value, entries[0].1)
    requires CompleteRows(RoleList, rows + extra + [Placeholder(entries[0].0, entries[0].1)], entries[1..])
          == Ok(FilteredResult(rows + extra + [Placeholder(entries[0].0, entries[0].1)], MissingEntries(rows, entries[1..])))
    ensures CompleteRows(RoleList, rows + extra, entries) == Ok(FilteredResult(rows + extra, MissingEntries(rows, entries)))
  {
    var e := entries[0];
    assert e in entries;
    CompleteRowsAppend(rows + extra, entries);
    assert MissingEntries(rows, entries) == [e] + MissingEntries(rows, entries[1..]);
    FilteredResultCons(rows + extra, e, MissingEntries(rows, entries[1..]));
  }

  lemma FilterSkipStep(rows: seq<Row>, extra: seq<Row>, entries: Roster)
    requires |entries| > 0 && IntegerKeys(entries)
    requires !NeedsPlaceholder(rows + extra, ParseInt(entries[0].0).value, entries[0].1)
    requires !NeedsPlaceholder(rows, ParseInt(entries[0].0).value, entries[0].1)
    requires CompleteRows(RoleList, rows + extra, entries[1..])
          == Ok(FilteredResult(rows + extra, MissingEntries(rows, entries[1..])))
    ensures CompleteRows(RoleList, rows + extra, entries) == Ok(FilteredResult(rows + extra, MissingEntries(rows, entries)))
  {
    assert entries[0] in entries;
    CompleteRowsSkip(RoleList, rows + extra, entries);
    assert MissingEntries(rows, entries) == [] + MissingEntries(rows, entries[1..]);
    assert [] + MissingEntries(rows, entries[1..]) == MissingEntries(rows, entries[1..]);
  }

  lemma {:induction false} CompleteRowsFilters(rows: seq<Row>, extra: seq<Row>, entries: Roster)
    requires IntegerKeys(entries) && DistinctNames(entries)
    requires forall r :: r in extra ==> r.id.KeyId?
    requires forall r, e :: r in extra && e in entries ==> r.name != e.1
    ensures CompleteRows(RoleList, rows + extra, entries) == Ok(FilteredResult(rows + extra, MissingEntries(rows, entries)))
    decreases |entries|
  {
    if |entries| == 0 {
      assert MissingEntries(rows, entries) == [];
      assert rows + extra + PlaceholdersFor([]) == rows + extra;
      assert NamesOf([]) == [];
    } else {
      var (key, name) := entries[0];
      var tail := entries[1..];
      TailOfRoster(entries);
      assert entries[0] in entries;
      assert forall e :: e in tail ==> e in entries;
      AppendKeyedKeepsTest(rows, extra, ParseInt(key).value, name);
      if NeedsPlaceholder(rows, ParseInt(key).value, name) {
        CompleteRowsFilters(rows, extra + [Placeholder(key, name)], tail);
        assert rows + (extra + [Placeholder(key, name)]) == rows + extra + [Placeholder(key, name)];
        FilterAppendStep(rows, extra, entries);
      } else {
        CompleteRowsFilters(rows, extra, tail);
        FilterSkipStep(rows, extra, entries);
      }
    }
  }

  /** With a list-valued Role column, integer keys and distinct roster names,
      completion appends exactly one placeholder per roster entry whose id is
      not among the table's ids or whose name is not among its names, in
      roster order, and reports exactly those names. */
  lemma CompletionAppendsMissingEntries(data: ChampionsData, roster: Roster)
    requires data.roles.RoleList? && IntegerKeys(roster) && DistinctNames(roster)
    ensures CompleteMissingChampionsData(data, roster).Ok?
    ensures var c := CompleteMissingChampionsData(data, roster).value;
      && c.data.rows == data.rows + PlaceholdersFor(MissingEntries(data.rows, roster))
      && MissingNames(c.report) == NamesOf(MissingEntries(data.rows, roster))
  {
    CompleteRowsFilters(data.rows, [], roster);
    assert data.rows + [] == data.rows;
    assert FilteredResult(data.rows, MissingEntries(data.rows, roster)).0 == data.rows + PlaceholdersFor(MissingEntries(data.rows, roster));
  }

  lemma {:induction false} ScalarRoleRows(roles: RoleColumn, rows: seq<Row>, entries: Roster)
    requires roles.RoleScalar? && IntegerKeys(entries)
    ensures CompleteRows(roles, rows, entries).Ok?
        <==> forall e :: e in entries ==> !NeedsPlaceholder(rows, ParseInt(e.0).value, e.1)
    decreases |entries|
  {
    if |entries| > 0 {
      var tail := entries[1..];
      assert entries[0] in entries;
      assert forall e :: e in tail ==> e in entries;
      ScalarRoleRows(roles, rows, tail);
      assert forall e :: e in entries ==> e == entries[0] || e in tail;
    }
  }

  /** With a single-valued Role column nothing can be appended: completion
      succeeds exactly when every roster entry already has its id and its name
      in the table, and otherwise fails on the Role column. */
  lemma ScalarRoleCompletion(data: ChampionsData, roster: Roster)
    requires data.roles.RoleScalar? && IntegerKeys(roster)
    ensures CompleteMissingChampionsData(data, roster).Ok?
        <==> forall e :: e in roster ==> !NeedsPlaceholder(data.rows, ParseInt(e.0).value, e.1)
    ensures CompleteMissingChampionsData(data, roster).Err?
        ==> CompleteMissingChampionsData(data, roster).error == ScalarRoleAppend
  {
    ScalarRoleRows(data.roles, data.rows, roster);
  }

  /** Every appended row is a placeholder: the key and name of a roster entry,
      no games, no wins, no losses, role "-" and win rate "0%". */
  lemma AppendedRowsArePlaceholders(before: seq<Row>, after: seq<Row>, missing: seq<string>, roster: Roster)
    requires AppendsPlaceholders(before, after, missing, roster)
    ensures forall i :: |before| <= i < |after| ==>
              && after[i].id.KeyId? && after[i].role == "-"
              && after[i].totalGames == 0 && after[i].wins == 0 && after[i].losses == 0
              && after[i].winrate == Literal("0%")
    ensures forall i :: |before| <= i < |after| ==>
              after[i].name == missing[i - |before|] && (after[i].id.key, after[i].name) in roster
  {
    forall i | |before| <= i < |after|
      ensures after[i].id.KeyId? && after[i].role == "-"
      ensures after[i].totalGames == 0 && after[i].wins == 0 && after[i].losses == 0
      ensures after[i].winrate == Literal("0%")
      ensures after[i].name == missing[i - |before|] && (after[i].id.key, after[i].name) in roster
    {
      var e := AppendedEntry(before, after, missing, roster, i - |before|);
    }
  }

  /** With unique roster keys, placeholders take the roster's name for their
      key, so completion keeps every row's name in agreement with the roster. */
  lemma CompletionKeepsRosterNames(data: ChampionsData, roster: Roster)
    requires DistinctKeys(roster) && NamesFromRoster(data.rows, roster)
    requires CompleteMissingChampionsData(data, roster).Ok?
    ensures NamesFromRoster(CompleteMissingChampionsData(data, roster).value.data.rows, roster)
  {
    var c := CompleteMissingChampionsData(data, roster).value;
    AppendedNamesFromRoster(data.rows, c.data.rows, MissingNames(c.report), roster);
  }

  /** The roster entry the placeholder at position `k` of the appended part was built from. */
  lemma AppendedEntry(before: seq<Row>, after: seq<Row>, missing: seq<string>, roster: Roster, k: int)
      returns (e: (string, string))
    requires AppendsPlaceholders(before, after, missing, roster) && 0 <= k < |missing|
    ensures e in roster && e.1 == missing[k] && after[|before| + k] == Placeholder(e.0, e.1)
  {
    assert missing[k] in missing;
    e :| e in roster && e.1 == missing[k] && after[|before| + k] == Placeholder(e.0, e.1);
  }

  lemma AppendedNamesFromRoster(before: seq<Row>, after: seq<Row>, missing: seq<string>, roster: Roster)
    requires DistinctKeys(roster) && NamesFromRoster(before, roster)
    requires AppendsPlaceholders(before, after, missing, roster)
    ensures NamesFromRoster(after, roster)
  {
    forall i | 0 <= i < |after|
      ensures match after[i].id
        case IntId(n) => Lookup(roster, IntToString(n)) == Some(after[i].name)
        case KeyId(k) => Lookup(roster, k) == Some(after[i].name)
    {
      if i < |before| {
        assert after[..|before|][i] == after[i];
        assert after[i] in before;
      } else {
        var e := AppendedEntry(before, after, missing, roster, i - |before|);
        var j :| 0 <= j < |roster| && roster[j] == e;
        LookupEntry(roster, j);
      }
    }
  }

  /** Completion never changes `__contains__`: placeholders carry string keys,
      which no integer equals. `__len__` grows by the reported count. */
  lemma CompletionKeepsMembership(data: ChampionsData, roster: Roster, item: int)
    requires CompleteMissingChampionsData(data, roster).Ok?
    ensures var c := CompleteMissingChampionsData(data, roster).value;
      && (Contains(c.data, item) <==> Contains(data, item))
      && Len(c.data) == Len(data) + |MissingNames(c.report)|
  {
    var c := CompleteMissingChampionsData(data, roster).value;
    var missing := MissingNames(c.report);
    if Contains(c.data, item) {
      var i :| 0 <= i < |c.data.rows| && c.data.rows[i].id == IntId(item);
      AppendedRowsArePlaceholders(data.rows, c.data.rows, missing, roster);
      assert c.data.rows[..|data.rows|][i] == data.rows[i];
    }
    if Contains(data, item) {
      var i :| 0 <= i < |data.rows| && data.rows[i].id == IntId(item);
      assert c.data.rows[..|data.rows|][i] == c.data.rows[i];
    }
  }

  /** One value of `res_data["data"]` in `update_champions_assets`. */
  datatype ChampionMeta = ChampionMeta(key: string, name: string)

  /** No two metadata entries share a `key`. */
  predicate DistinctMetaKeys(entries: seq<ChampionMeta>) {
    forall i, j :: 0 <= i < j < |entries| ==> entries[i].key != entries[j].key
  }

  /** Whether some entry of `roster` has key `key` (Python `key in d`). */
  predicate HasKey(roster: Roster, key: string) {
    exists i :: 0 <= i < |roster| && roster[i].0 == key
  }

  /** The place of `key` in `roster`, or `|roster|` when it is absent. */
  function KeyIndex(roster: Roster, key: string): (i: nat)
    ensures i <= |roster|
    ensures i < |roster| ==> roster[i].0 == key
    ensures i == |roster| <==> !HasKey(roster, key)
  {
    if |roster| == 0 then 0
    else if roster[0].0 == key then 0
    else 1 + KeyIndex(roster[1..], key)
  }

  /** `d[key] = name` on an insertion-ordered dict: an existing key keeps its
      place and takes the new name; a new key goes last. */
  function Assign(roster: Roster, key: string, name: string): (r: Roster)
    requires DistinctKeys(roster)
    ensures DistinctKeys(r)
    ensures (key, name) in r
    ensures forall e :: e in roster && e.0 != key ==> e in r
    ensures forall k :: HasKey(r, k) <==> HasKey(roster, k) || k == key
    ensures |r| == if HasKey(roster, key) then |roster| else |roster| + 1
    ensures !HasKey(roster, key) ==> r == roster + [(key, name)]
  {
    var i := KeyIndex(roster, key);
    if i < |roster| then
      var r := roster[i := (key, name)];
      assert r[i] == (key, name);
      assert forall j :: 0 <= j < |r| && j != i ==> r[j] == roster[j];
      r
    else
      roster + [(key, name)]
  }

  /** The (key, name) pairs of `entries`, in order. */
  function Pairs(entries: seq<ChampionMeta>): Roster {
    seq(|entries|, i requires 0 <= i < |entries| => (entries[i].key, entries[i].name))
  }

  /** Entry `i` is the last one carrying its key. */
  predicate LastWithKey(entries: seq<ChampionMeta>, i: int)
    requires 0 <= i < |entries|
  {
    forall j :: i < j < |entries| ==> entries[j].key != entries[i].key
  }

  /** `{value["key"]: value["name"] for value in data.values()}`: a dict with
      exactly the keys of the entries. */
  function NamesById(entries: seq<ChampionMeta>): (r: Roster)
    ensures DistinctKeys(r)
    ensures forall k :: HasKey(r, k) <==> exists i :: 0 <= i < |entries| && entries[i].key == k
    ensures |r| <= |entries|
  {
    if |entries| == 0 then []
    else
      var last := entries[|entries| - 1];
      Assign(NamesById(entries[..|entries| - 1]), last.key, last.name)
  }

  /** A later entry overwrites the name of an earlier one with the same key:
      each key ends up with the name of the LAST entry carrying it. */
  lemma {:induction false} NamesByIdKeepsLastName(entries: seq<ChampionMeta>, i: int)
    requires 0 <= i < |entries| && LastWithKey(entries, i)
    ensures (entries[i].key, entries[i].name) in NamesById(entries)
    ensures Lookup(NamesById(entries), entries[i].key) == Some(entries[i].name)
    decreases |entries|
  {
    var init := entries[..|entries| - 1];
    if i < |entries| - 1 {
      assert LastWithKey(init, i);
      NamesByIdKeepsLastName(init, i);
    }
    var r := NamesById(entries);
    var k :| 0 <= k < |r| && r[k] == (entries[i].key, entries[i].name);
    LookupEntry(r, k);
  }

  /** The derived map has one key per entry exactly when no two entries share a key. */
  lemma {:induction false} NamesByIdSize(entries: seq<ChampionMeta>)
    ensures |NamesById(entries)| == |entries| <==> DistinctMetaKeys(entries)
    decreases |entries|
  {
    if |entries| > 0 {
      var init := entries[..|entries| - 1];
      var last := entries[|entries| - 1];
      NamesByIdSize(init);
      var prev := NamesById(init);
      if DistinctMetaKeys(entries) {
        assert DistinctMetaKeys(init);
        assert !HasKey(prev, last.key);
      } else if DistinctMetaKeys(init) {
        var i, j :| 0 <= i < j < |entries| && entries[i].key == entries[j].key;
        assert j == |entries| - 1 && init[i].key == last.key;
        assert HasKey(prev, last.key);
      }
    }
  }

  /** Without repeated keys the derived map lists the entries in their order. */
  lemma {:induction false} NamesByIdInOrder(entries: seq<ChampionMeta>)
    requires DistinctMetaKeys(entries)
    ensures NamesById(entries) == Pairs(entries)
    decreases |entries|
  {
    if |entries| > 0 {
      var init := entries[..|entries| - 1];
      var last := entries[|entries| - 1];
      assert DistinctMetaKeys(init);
      NamesByIdInOrder(init);
      assert !HasKey(NamesById(init), last.key);
      assert Pairs(entries) == Pairs(init) + [(last.key, last.name)];
    }
  }

  /** The pure part of `update_champions_assets`: derive the id-to-name map and
      assert that it has as many keys as the metadata has entries. */
  function UpdateChampionsAssets(entries: seq<ChampionMeta>): (r: Result<Roster>)
    ensures r.Ok? <==> DistinctMetaKeys(entries)
    ensures r.Err? ==> r.error == KeysNotEqual
    ensures r.Ok? ==> |r.value| == |entries| && DistinctKeys(r.value)
    ensures r.Ok? ==> forall i :: 0 <= i < |entries| ==> r.value[i] == (entries[i].key, entries[i].name)
  {
    var namesById := NamesById(entries);
    NamesByIdSize(entries);
    if |entries| == |namesById| then
      NamesByIdInOrder(entries);
      Ok(namesById)
    else
      Err(KeysNotEqual)
  }
}
