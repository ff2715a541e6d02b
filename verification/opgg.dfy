/** services/opgg.py: the OP.GG adapter. The provider reports no roles, so
    `_sanitize_data` overwrites the Role column with the single value "-"
    before mapping; the table is then completed against the roster. */
module OpGG {
  import opened Outcomes
  import opened Text
  import opened Utils

  /** One entry of `response["data"]`. */
  datatype ChampionStats = ChampionStats(championId: int, play: int, win: int)

  /** The Role column `_sanitize_data` installs: one value for every row. */
  const NoRole: RoleColumn := RoleScalar("-")

  /** The body of the loop in `_sanitize_data` for one entry. The row's role
      is "-", the value the scalar Role column shows for every row. */
  function SanitizeEntry(roster: Roster, c: ChampionStats): (r: Result<Row>)
    ensures r.Ok? <==> HasKey(roster, IntToString(c.championId)) && c.play != 0
    ensures !HasKey(roster, IntToString(c.championId)) ==> r == Err(UnknownChampion(IntToString(c.championId)))
    ensures HasKey(roster, IntToString(c.championId)) && c.play == 0 ==> r == Err(ZeroDivision)
    ensures r.Ok? ==>
              && r.value.id == IntId(c.championId)
              && Lookup(roster, IntToString(c.championId)) == Some(r.value.name)
              && r.value.role == "-"
              && r.value.totalGames == c.play
              && r.value.wins == c.win
              && r.value.wins + r.value.losses == r.value.totalGames
              && r.value.winrate.PercentText?
              && r.value.winrate.value * c.play as real == (100 * c.win) as real
  {
    var name :- ChampionName(roster, c.championId);
    var winrate :- CalculateWinratePercentage(StrFormat, c.win, c.play);
    Ok(Row(IntId(c.championId), name, NoRole.value, c.play, c.win, c.play - c.win, winrate))
  }

  /** The loop of `_sanitize_data`: one row per entry, in order, or the failure
      of the first entry that fails. */
  function SanitizeEntries(roster: Roster, entries: seq<ChampionStats>): (r: Result<seq<Row>>)
    ensures r.Ok? <==> forall i :: 0 <= i < |entries| ==> SanitizeEntry(roster, entries[i]).Ok?
    ensures r.Ok? ==> |r.value| == |entries|
    ensures r.Ok? ==> forall i :: 0 <= i < |entries| ==> SanitizeEntry(roster, entries[i]) == Ok(r.value[i])
    ensures r.Err? ==> exists i :: 0 <= i < |entries| && SanitizeEntry(roster, entries[i]) == Err(r.error)
                                   && forall j :: 0 <= j < i ==> SanitizeEntry(roster, entries[j]).Ok?
  {
    if |entries| == 0 then Ok([])
    else
      var row :- SanitizeEntry(roster, entries[0]);
      var rest :- SanitizeEntries(roster, entries[1..]);
      Ok([row] + rest)
  }

  /** `_sanitize_data` as written: tag the table with OP.GG, make Role the
      scalar "-", map every entry, then complete. Completion cannot append to
      the scalar Role column, so a successful run has appended nothing. */
  function SanitizeData(roster: Roster, entries: seq<ChampionStats>): (r: Result<Completed>)
    ensures r.Ok? ==> r.value.data.provider == OpGG && r.value.data.roles == NoRole
    ensures r.Ok? ==> |r.value.data.rows| == |entries| && r.value.report == NoMissingChampions
    ensures r.Ok? ==> forall i :: 0 <= i < |entries| ==> SanitizeEntry(roster, entries[i]) == Ok(r.value.data.rows[i])
    ensures r.Ok? ==> forall e :: e in roster ==> HasName(r.value.data.rows, e.1)
    ensures r.Err? && IntegerKeys(roster) && SanitizeEntries(roster, entries).Ok? ==> r.error == ScalarRoleAppend
  {
    var rows :- SanitizeEntries(roster, entries);
    CompleteMissingChampionsData(ChampionsData(OpGG, NoRole, rows), roster)
  }

  /** As written, the OP.GG table survives completion exactly when every roster
      entry already has its integer id and its name among the mapped rows. */
  lemma SanitizeDataNeedsFullCoverage(roster: Roster, entries: seq<ChampionStats>)
    requires IntegerKeys(roster) && SanitizeEntries(roster, entries).Ok?
    ensures SanitizeData(roster, entries).Ok?
        <==> forall e :: e in roster ==>
               !NeedsPlaceholder(SanitizeEntries(roster, entries).value, ParseInt(e.0).value, e.1)
  {
    ScalarRoleCompletion(ChampionsData(OpGG, NoRole, SanitizeEntries(roster, entries).value), roster);
  }

  /** The smallest input that shows it: a one-champion roster and an empty
      response fail instead of producing one placeholder row. */
  lemma SanitizeDataFailsOnMissingChampion()
    ensures SanitizeData([("1", "Annie")], []) == Err(ScalarRoleAppend)
  {
    assert ParseInt("1") == Some(1);
  }

  /** `_sanitize_data` as evidently intended: placeholders are appended and
      shown with the broadcast role "-", which is the role a placeholder gets. */
  function SanitizeDataBroadcast(roster: Roster, entries: seq<ChampionStats>): (r: Result<Completed>)
    ensures r.Ok? ==> r.value.data.provider == OpGG && r.value.data.roles == NoRole
    ensures r.Ok? ==> |r.value.data.rows| == |entries| + |MissingNames(r.value.report)|
    ensures r.Ok? ==> forall i :: 0 <= i < |entries| ==> SanitizeEntry(roster, entries[i]) == Ok(r.value.data.rows[i])
    ensures r.Ok? ==> forall e :: e in roster ==> HasName(r.value.data.rows, e.1)
    ensures r.Ok? ==> forall row :: row in r.value.data.rows ==> row.role == NoRole.value
    ensures IntegerKeys(roster) ==> (r.Ok? <==> SanitizeEntries(roster, entries).Ok?)
  {
    var rows :- SanitizeEntries(roster, entries);
    var c :- CompleteMissingChampionsData(ChampionsData(OpGG, RoleList, rows), roster);
    assert forall i :: 0 <= i < |rows| ==> c.data.rows[..|rows|][i] == c.data.rows[i];
    AppendedRowsArePlaceholders(rows, c.data.rows, MissingNames(c.report), roster);
    Ok(Completed(c.data.(roles := NoRole), c.report))
  }

  /** On the same input the corrected version completes the table. */
  lemma SanitizeDataBroadcastCompletes()
    ensures SanitizeDataBroadcast([("1", "Annie")], [])
         == Ok(Completed(ChampionsData(OpGG, NoRole, [Placeholder("1", "Annie")]), AddedMissingChampions(1, ["Annie"])))
  {
    var roster := [("1", "Annie")];
    assert ParseInt("1") == Some(1);
    assert NeedsPlaceholder([], 1, "Annie");
    var placeholder := Placeholder("1", "Annie");
    assert [] + [placeholder] == [placeholder];
    assert CompleteRows(RoleList, [placeholder], roster[1..]) == Ok(([placeholder], []));
    CompleteRowsAppend([], roster);
    assert roster[0] == ("1", "Annie");
    assert ["Annie"] + [] == ["Annie"];
    assert CompleteRows(RoleList, [], roster) == Ok(([placeholder], ["Annie"]));
    assert SanitizeEntries(roster, []) == Ok([]);
    assert CompleteMissingChampionsData(ChampionsData(OpGG, RoleList, []), roster)
        == Ok(Completed(ChampionsData(OpGG, RoleList, [placeholder]), AddedMissingChampions(1, ["Annie"])));
  }

  /** `get_stats`: one request, then `_sanitize_data` on its entries. A failed
      request (`None`) raises HTTPError before anything is mapped. */
  function GetStats(response: Option<seq<ChampionStats>>, roster: Roster): (r: Result<Completed>)
    ensures response.None? ==> r == Err(FetchFailed(ProviderTag(OpGG)))
    ensures r.Ok? ==> response.Some? && r.value.data.provider == OpGG && r.value.data.roles == NoRole
    ensures r.Ok? ==> |r.value.data.rows| == |response.value|
    ensures r.Ok? ==> forall i :: 0 <= i < |response.value| ==> SanitizeEntry(roster, response.value[i]) == Ok(r.value.data.rows[i])
  {
    match response
    case None => Err(FetchFailed(ProviderTag(OpGG)))
    case Some(entries) => SanitizeData(roster, entries)
  }
}
