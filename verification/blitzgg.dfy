/** services/blitzgg.py: the BLITZ.GG adapter. Each `allChampionStats` entry of
    the response becomes one row with a normalised role label; the table is then
    completed against the roster. */
module BlitzGG {
  import opened Outcomes
  import opened Text
  import opened Utils

  /** One entry of `response["data"]["allChampionStats"]`. */
  datatype ChampionStats = ChampionStats(championId: int, role: string, games: int, wins: int)

  /** The Role value of a row: the label upper-cased when it contains "adc" in
      any case, title-cased otherwise. */
  function NormaliseRole(role: string): (r: string)
    ensures |r| == |role| && Lower(r) == Lower(role)
    ensures HasSubstring(Lower(role), "adc") ==> forall i :: 0 <= i < |r| ==> !IsLower(r[i])
    ensures !HasSubstring(Lower(role), "adc") ==> forall i :: 0 <= i < |r| ==>
              && (i > 0 && IsCased(role[i - 1]) ==> !IsUpper(r[i]))
              && ((i == 0 || !IsCased(role[i - 1])) ==> !IsLower(r[i]))
  {
    CaseMappingsIgnoreCase(role);
    if HasSubstring(Lower(role), "adc") then Upper(role) else Title(role)
  }

  /** The label's case in the response does not matter. */
  lemma NormaliseRoleIgnoresCase(role: string)
    ensures NormaliseRole(Lower(role)) == NormaliseRole(role)
    ensures NormaliseRole(Upper(role)) == NormaliseRole(role)
  {
    CaseMappingsIgnoreCase(role);
  }

  /** A normalised label normalises to itself. */
  lemma NormaliseRoleIdempotent(role: string)
    ensures NormaliseRole(NormaliseRole(role)) == NormaliseRole(role)
  {
    CaseMappingsIgnoreCase(role);
  }

  /** A label whose lower-cased form has no "a" cannot contain "adc", so it is title-cased. */
  lemma NonAdcLabel(role: string)
    requires forall i :: 0 <= i < |Lower(role)| ==> Lower(role)[i] != 'a'
    ensures NormaliseRole(role) == Title(role)
  {
    NoSubstringWithoutFirstChar(Lower(role), "adc");
  }

  // One label per lemma, so that each literal is evaluated on its own; `ApiRoleLabels` collects them.
  lemma TopLabel()
    ensures NormaliseRole("TOP") == "Top"
  {
    assert Lower("TOP") == "top" && Title("TOP") == "Top";
    NonAdcLabel("TOP");
  }

  lemma JungleLabel()
    ensures NormaliseRole("JUNGLE") == "Jungle"
  {
    assert Lower("JUNGLE") == "jungle" && Title("JUNGLE") == "Jungle";
    NonAdcLabel("JUNGLE");
  }

  lemma MidLabel()
    ensures NormaliseRole("MID") == "Mid"
  {
    assert Lower("MID") == "mid" && Title("MID") == "Mid";
    NonAdcLabel("MID");
  }

  lemma AdcLabel()
    ensures NormaliseRole("ADC") == "ADC"
  {
    assert Lower("ADC") == "adc" && OccursAt(Lower("ADC"), "adc", 0);
    assert Upper("ADC") == "ADC";
  }

  lemma SupportLabel()
    ensures NormaliseRole("SUPPORT") == "Support"
  {
    assert Lower("SUPPORT") == "support" && Title("SUPPORT") == "Support";
    NonAdcLabel("SUPPORT");
  }

  /** The five lane labels the API sends become Top, Jungle, Mid, ADC and Support. */
  lemma ApiRoleLabels()
    ensures NormaliseRole("TOP") == "Top"
    ensures NormaliseRole("JUNGLE") == "Jungle"
    ensures NormaliseRole("MID") == "Mid"
    ensures NormaliseRole("ADC") == "ADC"
    ensures NormaliseRole("SUPPORT") == "Support"
  {
    TopLabel();
    JungleLabel();
    MidLabel();
    AdcLabel();
    SupportLabel();
  }

  /** The body of the loop in `_sanitize_data` for one entry. The roster lookup
      comes before the win-rate division, so an unknown id is reported even for
      an entry with no games. */
  function SanitizeEntry(roster: Roster, c: ChampionStats): (r: Result<Row>)
    ensures r.Ok? <==> HasKey(roster, IntToString(c.championId)) && c.games != 0
    ensures !HasKey(roster, IntToString(c.championId)) ==> r == Err(UnknownChampion(IntToString(c.championId)))
    ensures HasKey(roster, IntToString(c.championId)) && c.games == 0 ==> r == Err(ZeroDivision)
    ensures r.Ok? ==>
              && r.value.id == IntId(c.championId)
              && Lookup(roster, IntToString(c.championId)) == Some(r.value.name)
              && r.value.role == NormaliseRole(c.role)
              && r.value.totalGames == c.games
              && r.value.wins == c.wins
              && r.value.wins + r.value.losses == r.value.totalGames
              && r.value.winrate.PercentText?
              && r.value.winrate.value * c.games as real == (100 * c.wins) as real
  {
    var name :- ChampionName(roster, c.championId);
    var winrate :- CalculateWinratePercentage(StrFormat, c.wins, c.games);
    Ok(Row(IntId(c.championId), name, NormaliseRole(c.role), c.games, c.wins, c.games - c.wins, winrate))
  }

  /** The loop of `_sanitize_data`: one row per entry, in order, or the failure
      of the first entry that fails. */
  function SanitizeEntries(roster: Roster, entries: seq<ChampionStats>): (r: Result<seq<Row>>)
    ensures r.Ok? <==> forall i :: 0 <= i < |entries| ==> SanitizeEntry(roster, entries[i]).Ok?
    ensures r.Ok? ==> |r.value| == |entries|
    ensures r.Ok? ==> forall i :: 0 <= i < |entries| ==> SanitizeEntry(roster, entries[i]) == Ok(r.value[i])
    ensures r.Err? ==> exists i :: 0 <= i < |entries| && SanitizeEntry(roster, entries[i]) == Err(r.error)
                                   && forall j :: 0 <= j < i ==> SanitizeEntry(roster, entries[j]).Ok?
  {
    if |entries| == 0 then Ok([])
    else
      var row :- SanitizeEntry(roster, entries[0]);
      var rest :- SanitizeEntries(roster, entries[1..]);
      Ok([row] + rest)
  }

  /** `_sanitize_data`: tag the table with BLITZ.GG, map every entry, then
      complete the table against the roster. */
  function SanitizeData(roster: Roster, entries: seq<ChampionStats>): (r: Result<Completed>)
    ensures r.Ok? ==> r.value.data.provider == BlitzGG && r.value.data.roles == RoleList
    ensures r.Ok? ==> |r.value.data.rows| == |entries| + |MissingNames(r.value.report)|
    ensures r.Ok? ==> forall i :: 0 <= i < |entries| ==> SanitizeEntry(roster, entries[i]) == Ok(r.value.data.rows[i])
    ensures r.Ok? ==> forall e :: e in roster ==> HasName(r.value.data.rows, e.1)
    ensures r.Ok? ==> forall row :: row in r.value.data.rows ==> row.wins + row.losses == row.totalGames
    ensures IntegerKeys(roster) ==> (r.Ok? <==> forall i :: 0 <= i < |entries| ==> SanitizeEntry(roster, entries[i]).Ok?)
  {
    var rows :- SanitizeEntries(roster, entries);
    var data := ChampionsData(BlitzGG, RoleList, rows);
    var c :- CompleteMissingChampionsData(data, roster);
    assert forall i :: 0 <= i < |rows| ==> c.data.rows[..|rows|][i] == c.data.rows[i];
    AppendedRowsArePlaceholders(rows, c.data.rows, MissingNames(c.report), roster);
    Ok(c)
  }

  /** `get_stats`: one request, then `_sanitize_data` on its entries. A failed
      request (`None`) raises HTTPError before anything is mapped. */
  function GetStats(response: Option<seq<ChampionStats>>, roster: Roster): (r: Result<Completed>)
    ensures response.None? ==> r == Err(FetchFailed(ProviderTag(BlitzGG)))
    ensures r.Ok? ==> response.Some? && r.value.data.provider == BlitzGG
    ensures r.Ok? ==> |r.value.data.rows| >= |response.value|
    ensures r.Ok? ==> forall i :: 0 <= i < |response.value| ==> SanitizeEntry(roster, response.value[i]) == Ok(r.value.data.rows[i])
  {
    match response
    case None => Err(FetchFailed(ProviderTag(BlitzGG)))
    case Some(entries) => SanitizeData(roster, entries)
  }
}
