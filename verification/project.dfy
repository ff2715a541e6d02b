/** project.py: the statistics table is deduplicated on ChampionId, keeping the
    first row of each id (`drop_duplicates(subset=["ChampionId"], keep="first")`). */
module Project {
  import opened Outcomes
  import opened Text
  import opened Utils
  import BlitzGG
  import OpGG

  /** pandas `duplicated(keep="first")` for row `i`: an earlier row has its id. */
  predicate Duplicated(rows: seq<Row>, i: int)
    requires 0 <= i < |rows|
  {
    exists j :: 0 <= j < i && rows[j].id == rows[i].id
  }

  /** `drop_duplicates(subset=["ChampionId"], keep="first")`: the rows not
      marked as duplicated, in their original order. */
  function DropDuplicates(rows: seq<Row>): (r: seq<Row>)
    ensures |r| <= |rows|
    ensures forall row :: row in r ==> row in rows
  {
    if |rows| == 0 then []
    else
      var last := |rows| - 1;
      DropDuplicates(rows[..last]) + (if Duplicated(rows, last) then [] else [rows[last]])
  }

  /** No two rows share a ChampionId. */
  predicate UniqueIds(rows: seq<Row>) {
    forall i, j :: 0 <= i < j < |rows| ==> rows[i].id != rows[j].id
  }

  /** `a` is `b` with some rows left out, the rest in the same order. */
  ghost predicate IsSubsequence(a: seq<Row>, b: seq<Row>)
    decreases |b|
  {
    if |a| == 0 then true
    else if |b| == 0 then false
    else (a[|a| - 1] == b[|b| - 1] && IsSubsequence(a[..|a| - 1], b[..|b| - 1]))
         || IsSubsequence(a, b[..|b| - 1])
  }

  lemma DuplicatedInPrefix(rows: seq<Row>, n: int, i: int)
    requires 0 <= i < n <= |rows|
    ensures Duplicated(rows[..n], i) == Duplicated(rows, i)
  {
    if Duplicated(rows, i) {
      var j :| 0 <= j < i && rows[j].id == rows[i].id;
      assert rows[..n][j] == rows[j];
    }
  }

  /** The output has no repeated id, and holds exactly the ids of the input. */
  lemma {:induction false} DropDuplicatesUniqueIds(rows: seq<Row>)
    ensures UniqueIds(DropDuplicates(rows))
    ensures forall id :: HasId(DropDuplicates(rows), id) <==> HasId(rows, id)
    decreases |rows|
  {
    if |rows| > 0 {
      var last := |rows| - 1;
      var init := rows[..last];
      DropDuplicatesUniqueIds(init);
      var prev := DropDuplicates(init);
      forall id ensures HasId(rows, id) <==> HasId(init, id) || rows[last].id == id {
        if HasId(rows, id) {
          var i :| 0 <= i < |rows| && rows[i].id == id;
          if i < last {
            assert init[i] == rows[i];
          }
        }
        if HasId(init, id) {
          var i :| 0 <= i < |init| && init[i].id == id;
          assert rows[i] == init[i];
        }
      }
      if Duplicated(rows, last) {
        var j :| 0 <= j < last && rows[j].id == rows[last].id;
        assert init[j] == rows[j];
        assert HasId(init, rows[last].id);
        assert DropDuplicates(rows) == prev + [];
        assert prev + [] == prev;
      } else {
        var out := prev + [rows[last]];
        assert !HasId(init, rows[last].id);
        forall id ensures HasId(out, id) <==> HasId(prev, id) || rows[last].id == id {
          if HasId(out, id) {
            var i :| 0 <= i < |out| && out[i].id == id;
            if i < |prev| {
              assert out[i] == prev[i];
            }
          }
          if HasId(prev, id) {
            var i :| 0 <= i < |prev| && prev[i].id == id;
            assert out[i] == prev[i];
          }
          assert out[|prev|] == rows[last];
        }
        forall i | 0 <= i < |prev| ensures out[i].id != rows[last].id {
          assert out[i] == prev[i];
        }
      }
    }
  }

  /** Each kept row is the first occurrence of its id, and every first
      occurrence is kept. */
  lemma {:induction false} DropDuplicatesKeepsFirst(rows: seq<Row>)
    ensures forall r :: r in DropDuplicates(rows) ==>
              exists i :: 0 <= i < |rows| && rows[i] == r && !Duplicated(rows, i)
    ensures forall i :: 0 <= i < |rows| && !Duplicated(rows, i) ==> rows[i] in DropDuplicates(rows)
    decreases |rows|
  {
    if |rows| > 0 {
      var last := |rows| - 1;
      var init := rows[..last];
      DropDuplicatesKeepsFirst(init);
      forall r | r in DropDuplicates(rows)
        ensures exists i :: 0 <= i < |rows| && rows[i] == r && !Duplicated(rows, i)
      {
        if r in DropDuplicates(init) {
          var i :| 0 <= i < |init| && init[i] == r && !Duplicated(init, i);
          DuplicatedInPrefix(rows, last, i);
          assert rows[i] == r;
        } else {
          assert r == rows[last] && !Duplicated(rows, last);
        }
      }
      forall i | 0 <= i < |rows| && !Duplicated(rows, i)
        ensures rows[i] in DropDuplicates(rows)
      {
        if i < last {
          DuplicatedInPrefix(rows, last, i);
          assert init[i] == rows[i];
        }
      }
    }
  }

  /** The output keeps the input's order and is no longer than it. */
  lemma {:induction false} DropDuplicatesIsSubsequence(rows: seq<Row>)
    ensures IsSubsequence(DropDuplicates(rows), rows)
    ensures |DropDuplicates(rows)| <= |rows|
    decreases |rows|
  {
    if |rows| > 0 {
      var last := |rows| - 1;
      var init := rows[..last];
      DropDuplicatesIsSubsequence(init);
      var prev := DropDuplicates(init);
      if !Duplicated(rows, last) {
        var out := prev + [rows[last]];
        assert out[..|out| - 1] == prev;
      } else {
        assert DropDuplicates(rows) == prev;
        if |prev| > 0 {
          assert rows[..|rows| - 1] == init;
        }
      }
    }
  }

  /** Rows with no repeated id are left as they are. */
  lemma {:induction false} DropDuplicatesOfUnique(rows: seq<Row>)
    requires UniqueIds(rows)
    ensures DropDuplicates(rows) == rows
    decreases |rows|
  {
    if |rows| > 0 {
      var last := |rows| - 1;
      var init := rows[..last];
      assert UniqueIds(init);
      DropDuplicatesOfUnique(init);
      assert !Duplicated(rows, last);
      assert init + [rows[last]] == rows;
    }
  }

  /** Deduplicating twice is deduplicating once. */
  lemma DropDuplicatesIdempotent(rows: seq<Row>)
    ensures DropDuplicates(DropDuplicates(rows)) == DropDuplicates(rows)
  {
    DropDuplicatesUniqueIds(rows);
    DropDuplicatesOfUnique(DropDuplicates(rows));
  }

  /** The dedup step as pandas computes it: one pass remembering the ids seen
      so far. */
  method DropDuplicatesScan(rows: seq<Row>) returns (kept: seq<Row>)
    ensures kept == DropDuplicates(rows)
    ensures UniqueIds(kept)
  {
    var seen: set<ChampionId> := {};
    kept := [];
    for i := 0 to |rows|
      invariant kept == DropDuplicates(rows[..i])
      invariant forall id :: id in seen <==> HasId(rows[..i], id)
    {
      var prefix := rows[..i + 1];
      assert prefix[..i] == rows[..i];
      assert Duplicated(prefix, i) <==> rows[i].id in seen by {
        if rows[i].id in seen {
          var j :| 0 <= j < i && rows[..i][j].id == rows[i].id;
          assert prefix[j] == rows[..i][j];
        }
        if Duplicated(prefix, i) {
          var j :| 0 <= j < i && prefix[j].id == prefix[i].id;
          assert rows[..i][j] == prefix[j];
        }
      }
      forall id ensures HasId(prefix, id) <==> HasId(rows[..i], id) || id == rows[i].id {
        if HasId(prefix, id) {
          var j :| 0 <= j < |prefix| && prefix[j].id == id;
          if j < i {
            assert rows[..i][j] == prefix[j];
          }
        }
        if HasId(rows[..i], id) {
          var j :| 0 <= j < i && rows[..i][j].id == id;
          assert prefix[j] == rows[..i][j];
        }
        assert prefix[i] == rows[i];
      }
      if rows[i].id !in seen {
        kept := kept + [rows[i]];
        seen := seen + {rows[i].id};
      }
    }
    assert rows[..|rows|] == rows;
    DropDuplicatesUniqueIds(rows);
  }

  /** Rows with the same id carry the same name. */
  predicate NamesAgree(rows: seq<Row>) {
    forall i, j :: 0 <= i < |rows| && 0 <= j < |rows| && rows[i].id == rows[j].id ==> rows[i].name == rows[j].name
  }

  /** The row at `f` is the first occurrence of the id of row `i`. */
  lemma {:induction false} FirstOccurrence(rows: seq<Row>, i: int) returns (f: int)
    requires 0 <= i < |rows|
    ensures 0 <= f <= i && rows[f].id == rows[i].id && !Duplicated(rows, f)
    decreases i
  {
    if Duplicated(rows, i) {
      var j :| 0 <= j < i && rows[j].id == rows[i].id;
      f := FirstOccurrence(rows, j);
    } else {
      f := i;
    }
  }

  /** When rows with the same id carry the same name, deduplication loses no name. */
  lemma DropDuplicatesKeepsNames(rows: seq<Row>, name: string)
    requires NamesAgree(rows)
    ensures HasName(DropDuplicates(rows), name) <==> HasName(rows, name)
  {
    var out := DropDuplicates(rows);
    DropDuplicatesKeepsFirst(rows);
    if HasName(out, name) {
      var k :| 0 <= k < |out| && out[k].name == name;
      assert out[k] in out;
      var i :| 0 <= i < |rows| && rows[i] == out[k] && !Duplicated(rows, i);
    }
    if HasName(rows, name) {
      var i :| 0 <= i < |rows| && rows[i].name == name;
      var f := FirstOccurrence(rows, i);
      var k :| 0 <= k < |out| && out[k] == rows[f];
    }
  }

  /** Rows whose names come from the roster agree on the name of each id. */
  lemma RosterNamesAgree(rows: seq<Row>, roster: Roster)
    requires NamesFromRoster(rows, roster)
    ensures NamesAgree(rows)
  {
    forall i, j | 0 <= i < |rows| && 0 <= j < |rows| && rows[i].id == rows[j].id
      ensures rows[i].name == rows[j].name
    {
      assert rows[i] in rows && rows[j] in rows;
    }
  }

  /** After dedup the table has one row per id and still names every roster champion. */
  lemma DedupKeepsRoster(rows: seq<Row>, roster: Roster)
    requires NamesFromRoster(rows, roster)
    requires forall e :: e in roster ==> HasName(rows, e.1)
    ensures UniqueIds(DropDuplicates(rows))
    ensures forall e :: e in roster ==> HasName(DropDuplicates(rows), e.1)
  {
    DropDuplicatesUniqueIds(rows);
    RosterNamesAgree(rows, roster);
    forall e | e in roster ensures HasName(DropDuplicates(rows), e.1) {
      DropDuplicatesKeepsNames(rows, e.1);
    }
  }

  /** The provider rows take their names from the roster. */
  lemma BlitzRowsFromRoster(roster: Roster, entries: seq<BlitzGG.ChampionStats>)
    requires BlitzGG.SanitizeEntries(roster, entries).Ok?
    ensures NamesFromRoster(BlitzGG.SanitizeEntries(roster, entries).value, roster)
  {
    var rows := BlitzGG.SanitizeEntries(roster, entries).value;
    forall row | row in rows
      ensures match row.id
        case IntId(n) => Lookup(roster, IntToString(n)) == Some(row.name)
        case KeyId(k) => Lookup(roster, k) == Some(row.name)
    {
      var i :| 0 <= i < |rows| && rows[i] == row;
      assert BlitzGG.SanitizeEntry(roster, entries[i]) == Ok(row);
    }
  }

  /** The provider rows take their names from the roster. */
  lemma OpGGRowsFromRoster(roster: Roster, entries: seq<OpGG.ChampionStats>)
    requires OpGG.SanitizeEntries(roster, entries).Ok?
    ensures NamesFromRoster(OpGG.SanitizeEntries(roster, entries).value, roster)
  {
    var rows := OpGG.SanitizeEntries(roster, entries).value;
    forall row | row in rows
      ensures match row.id
        case IntId(n) => Lookup(roster, IntToString(n)) == Some(row.name)
        case KeyId(k) => Lookup(roster, k) == Some(row.name)
    {
      var i :| 0 <= i < |rows| && rows[i] == row;
      assert OpGG.SanitizeEntry(roster, entries[i]) == Ok(row);
    }
  }

  /** The BLITZ.GG table as `project.py` leaves it: unique ids, every roster
      champion named. */
  lemma BlitzTableCoversRoster(roster: Roster, entries: seq<BlitzGG.ChampionStats>)
    requires DistinctKeys(roster)
    ensures BlitzGG.SanitizeData(roster, entries).Ok? ==>
      var table := DropDuplicates(BlitzGG.SanitizeData(roster, entries).value.data.rows);
      UniqueIds(table) && forall e :: e in roster ==> HasName(table, e.1)
  {
    var result := BlitzGG.SanitizeData(roster, entries);
    if result.Ok? {
      var rows := BlitzGG.SanitizeEntries(roster, entries).value;
      var data := ChampionsData(BlitzGG, RoleList, rows);
      assert result == CompleteMissingChampionsData(data, roster);
      BlitzRowsFromRoster(roster, entries);
      CompletionKeepsRosterNames(data, roster);
      DedupKeepsRoster(result.value.data.rows, roster);
    }
  }

  /** The OP.GG table as `project.py` leaves it: unique ids, every roster
      champion named. */
  lemma OpGGTableCoversRoster(roster: Roster, entries: seq<OpGG.ChampionStats>)
    requires DistinctKeys(roster)
    ensures OpGG.SanitizeData(roster, entries).Ok? ==>
      var table := DropDuplicates(OpGG.SanitizeData(roster, entries).value.data.rows);
      UniqueIds(table) && forall e :: e in roster ==> HasName(table, e.1)
  {
    var result := OpGG.SanitizeData(roster, entries);
    if result.Ok? {
      var rows := OpGG.SanitizeEntries(roster, entries).value;
      assert result.value.data.rows == rows;
      OpGGRowsFromRoster(roster, entries);
      DedupKeepsRoster(rows, roster);
    }
  }

  /** Rows that carry the same name carry the same id. */
  predicate IdsFollowNames(rows: seq<Row>) {
    forall i, j :: 0 <= i < |rows| && 0 <= j < |rows| && rows[i].name == rows[j].name ==> rows[i].id == rows[j].id
  }

  /** No two rows carry the same name. */
  predicate UniqueNames(rows: seq<Row>) {
    forall i, j :: 0 <= i < j < |rows| ==> rows[i].name != rows[j].name
  }

  /** With distinct roster names, a name belongs to one roster entry only. */
  lemma EntryOfName(roster: Roster, a: (string, string), b: (string, string))
    requires DistinctNames(roster) && a in roster && b in roster && a.1 == b.1
    ensures a == b
  {
    var i :| 0 <= i < |roster| && roster[i] == a;
    var j :| 0 <= j < |roster| && roster[j] == b;
    if i != j {
      assert false;
    }
  }

  /** The roster entry a provider row's name was looked up under: `(str(id), name)`. */
  lemma ProviderRowEntry(rows: seq<Row>, roster: Roster, i: int)
    requires NamesFromRoster(rows, roster) && 0 <= i < |rows| && rows[i].id.IntId?
    ensures (IntToString(rows[i].id.n), rows[i].name) in roster
  {
    assert rows[i] in rows;
    var k :| 0 <= k < |roster| && roster[k] == (IntToString(rows[i].id.n), rows[i].name);
  }

  /** Provider rows named from a roster with distinct names: one name, one id,
      because `str` is injective. */
  lemma ProviderRowsFollowNames(rows: seq<Row>, roster: Roster)
    requires DistinctNames(roster) && NamesFromRoster(rows, roster)
    requires forall r :: r in rows ==> r.id.IntId?
    ensures IdsFollowNames(rows)
  {
    forall i, j | 0 <= i < |rows| && 0 <= j < |rows| && rows[i].name == rows[j].name
      ensures rows[i].id == rows[j].id
    {
      assert rows[i] in rows && rows[j] in rows;
      ProviderRowEntry(rows, roster, i);
      ProviderRowEntry(rows, roster, j);
      EntryOfName(roster, (IntToString(rows[i].id.n), rows[i].name), (IntToString(rows[j].id.n), rows[j].name));
      IntToStringInjective(rows[i].id.n, rows[j].id.n);
    }
  }

  /** A roster entry that needs a placeholder never carries the name of a
      provider row: that name was looked up under `str(id)`, and `int(str(id))`
      is `id`, which the table already holds. */
  lemma MissingNameIsNotProvided(rows: seq<Row>, roster: Roster, i: int, e: (string, string))
    requires DistinctNames(roster) && NamesFromRoster(rows, roster)
    requires 0 <= i < |rows| && rows[i].id.IntId?
    requires e in roster && ParseInt(e.0).Some? && NeedsPlaceholder(rows, ParseInt(e.0).value, e.1)
    ensures e.1 != rows[i].name
  {
    if e.1 == rows[i].name {
      var n := rows[i].id.n;
      ProviderRowEntry(rows, roster, i);
      EntryOfName(roster, e, (IntToString(n), rows[i].name));
      ParseIntToString(n);
      assert HasId(rows, IntId(n)) && HasName(rows, e.1);
      assert false;
    }
  }

  /** Every entry of `missing` is a roster entry that completion must add. */
  predicate AllNeedPlaceholder(rows: seq<Row>, roster: Roster, missing: Roster)
    requires IntegerKeys(roster)
  {
    forall e :: e in missing ==> e in roster && NeedsPlaceholder(rows, ParseInt(e.0).value, e.1)
  }

  /** A placeholder's name is never the name of a provider row. */
  lemma PlaceholderNameIsNew(rows: seq<Row>, roster: Roster, missing: Roster, i: int, k: int)
    requires IntegerKeys(roster) && DistinctNames(roster) && NamesFromRoster(rows, roster)
    requires forall r :: r in rows ==> r.id.IntId?
    requires AllNeedPlaceholder(rows, roster, missing)
    requires 0 <= i < |rows| && 0 <= k < |missing|
    ensures PlaceholdersFor(missing)[k].name != rows[i].name
  {
    assert missing[k] in missing && rows[i] in rows;
    MissingNameIsNotProvided(rows, roster, i, missing[k]);
  }

  /** Two placeholders for entries of a roster with distinct names: the same
      name means the same entry, hence the same id. */
  lemma PlaceholderPairFollowsNames(roster: Roster, missing: Roster, a: int, b: int)
    requires DistinctNames(roster) && forall e :: e in missing ==> e in roster
    requires 0 <= a < |missing| && 0 <= b < |missing|
    requires PlaceholdersFor(missing)[a].name == PlaceholdersFor(missing)[b].name
    ensures PlaceholdersFor(missing)[a].id == PlaceholdersFor(missing)[b].id
  {
    assert missing[a] in missing && missing[b] in missing;
    EntryOfName(roster, missing[a], missing[b]);
  }

  /** No row of `xs` has the name of a row of `ys`. */
  predicate NamesDisjoint(xs: seq<Row>, ys: seq<Row>) {
    forall i, k :: 0 <= i < |xs| && 0 <= k < |ys| ==> xs[i].name != ys[k].name
  }

  /** Two tables that each tie names to ids and share no name still do so
      when one is appended to the other. */
  lemma AppendFollowsNames(xs: seq<Row>, ys: seq<Row>)
    requires IdsFollowNames(xs) && IdsFollowNames(ys) && NamesDisjoint(xs, ys)
    ensures IdsFollowNames(xs + ys)
  {
    var full := xs + ys;
    forall i, j | 0 <= i < |full| && 0 <= j < |full| && full[i].name == full[j].name
      ensures full[i].id == full[j].id
    {
      if i < |xs| && j < |xs| {
        assert full[i] == xs[i] && full[j] == xs[j];
      } else if |xs| <= i && |xs| <= j {
        assert full[i] == ys[i - |xs|] && full[j] == ys[j - |xs|];
      } else if i < |xs| {
        assert false;
      } else {
        assert false;
      }
    }
  }

  /** The placeholders for entries of a roster with distinct names tie each
      name to one id. */
  lemma PlaceholdersFollowNames(roster: Roster, missing: Roster)
    requires DistinctNames(roster) && forall e :: e in missing ==> e in roster
    ensures IdsFollowNames(PlaceholdersFor(missing))
  {
    var ps := PlaceholdersFor(missing);
    forall a, b | 0 <= a < |ps| && 0 <= b < |ps| && ps[a].name == ps[b].name
      ensures ps[a].id == ps[b].id
    {
      PlaceholderPairFollowsNames(roster, missing, a, b);
    }
  }

  /** No placeholder completion adds has the name of a provider row. */
  lemma PlaceholderNamesAreNew(rows: seq<Row>, roster: Roster, missing: Roster)
    requires IntegerKeys(roster) && DistinctNames(roster) && NamesFromRoster(rows, roster)
    requires forall r :: r in rows ==> r.id.IntId?
    requires AllNeedPlaceholder(rows, roster, missing)
    ensures NamesDisjoint(rows, PlaceholdersFor(missing))
  {
    forall i, k | 0 <= i < |rows| && 0 <= k < |PlaceholdersFor(missing)|
      ensures rows[i].name != PlaceholdersFor(missing)[k].name
    {
      PlaceholderNameIsNew(rows, roster, missing, i, k);
    }
  }

  /** Provider rows followed by the placeholders completion appends: still one
      name, one id. */
  lemma CompletedRowsFollowNames(rows: seq<Row>, roster: Roster)
    requires IntegerKeys(roster) && DistinctNames(roster) && NamesFromRoster(rows, roster)
    requires forall r :: r in rows ==> r.id.IntId?
    ensures IdsFollowNames(rows + PlaceholdersFor(MissingEntries(rows, roster)))
  {
    var missing := MissingEntries(rows, roster);
    MissingEntriesNeedPlaceholder(rows, roster);
    assert AllNeedPlaceholder(rows, roster, missing);
    ProviderRowsFollowNames(rows, roster);
    PlaceholdersFollowNames(roster, missing);
    PlaceholderNamesAreNew(rows, roster, missing);
    AppendFollowsNames(rows, PlaceholdersFor(missing));
  }

  /** No two elements of `s` are equal. */
  predicate Distinct<T(==)>(s: seq<T>) {
    forall i, j :: 0 <= i < j < |s| ==> s[i] != s[j]
  }

  /** A sequence without repeats has as many elements as its set. */
  lemma {:induction false} DistinctCardinality<T>(s: seq<T>)
    requires Distinct(s)
    ensures |set x | x in s| == |s|
    decreases |s|
  {
    if |s| > 0 {
      var init := s[..|s| - 1];
      var last := s[|s| - 1];
      assert Distinct(init);
      DistinctCardinality(init);
      assert (set x | x in s) == (set x | x in init) + {last};
      assert last !in (set x | x in init);
    }
  }

  /** Dedup keeps one row per id; when a name fixes the id, it keeps one row per name too. */
  lemma DropDuplicatesUniqueNames(rows: seq<Row>)
    requires IdsFollowNames(rows)
    ensures UniqueNames(DropDuplicates(rows))
  {
    var table := DropDuplicates(rows);
    DropDuplicatesUniqueIds(rows);
    DropDuplicatesKeepsFirst(rows);
    forall i, j | 0 <= i < j < |table| ensures table[i].name != table[j].name {
      assert table[i] in table && table[j] in table;
      var a :| 0 <= a < |rows| && rows[a] == table[i] && !Duplicated(rows, a);
      var b :| 0 <= b < |rows| && rows[b] == table[j] && !Duplicated(rows, b);
    }
  }

  /** A name left after dedup is a roster name. */
  lemma TableNameInRoster(rows: seq<Row>, roster: Roster, x: string)
    requires NamesFromRoster(rows, roster) && x in RowNames(DropDuplicates(rows))
    ensures x in NamesOf(roster)
  {
    var table := DropDuplicates(rows);
    var i :| 0 <= i < |table| && RowNames(table)[i] == x;
    DropDuplicatesKeepsFirst(rows);
    assert table[i] in table;
    var a :| 0 <= a < |rows| && rows[a] == table[i] && !Duplicated(rows, a);
    assert rows[a] in rows;
    var k :| 0 <= k < |roster| && roster[k].1 == x;
    assert NamesOf(roster)[k] == x;
  }

  /** A roster name is still present after dedup. */
  lemma RosterNameInTable(rows: seq<Row>, roster: Roster, x: string)
    requires NamesFromRoster(rows, roster) && x in NamesOf(roster)
    requires forall e :: e in roster ==> HasName(rows, e.1)
    ensures x in RowNames(DropDuplicates(rows))
  {
    var table := DropDuplicates(rows);
    var k :| 0 <= k < |roster| && NamesOf(roster)[k] == x;
    assert roster[k] in roster;
    RosterNamesAgree(rows, roster);
    DropDuplicatesKeepsNames(rows, x);
    var i :| 0 <= i < |table| && table[i].name == x;
    assert RowNames(table)[i] == x;
  }

  /** Every name of the deduplicated table is a roster name, and the other way round. */
  lemma DropDuplicatesRosterNames(rows: seq<Row>, roster: Roster)
    requires NamesFromRoster(rows, roster)
    requires forall e :: e in roster ==> HasName(rows, e.1)
    ensures forall x :: x in RowNames(DropDuplicates(rows)) <==> x in NamesOf(roster)
  {
    forall x ensures x in RowNames(DropDuplicates(rows)) <==> x in NamesOf(roster) {
      if x in RowNames(DropDuplicates(rows)) {
        TableNameInRoster(rows, roster, x);
      }
      if x in NamesOf(roster) {
        RosterNameInTable(rows, roster, x);
      }
    }
  }

  /** The Name column of a table. */
  function RowNames(rows: seq<Row>): (r: seq<string>)
    ensures |r| == |rows| && forall i :: 0 <= i < |rows| ==> r[i] == rows[i].name
  {
    seq(|rows|, i requires 0 <= i < |rows| => rows[i].name)
  }

  /** Two sequences without repeats that hold the same elements have the same length. */
  lemma SameElementsSameLength(a: seq<string>, b: seq<string>)
    requires Distinct(a) && Distinct(b)
    requires forall x :: x in a <==> x in b
    ensures |a| == |b|
  {
    DistinctCardinality(a);
    DistinctCardinality(b);
    assert (set x | x in a) == (set x | x in b);
  }

  /** When each name fixes the id and each id fixes the name from a roster with
      distinct names, dedup leaves exactly one row per roster champion. */
  lemma OneRowPerChampion(rows: seq<Row>, roster: Roster)
    requires DistinctNames(roster) && NamesFromRoster(rows, roster) && IdsFollowNames(rows)
    requires forall e :: e in roster ==> HasName(rows, e.1)
    ensures var table := DropDuplicates(rows);
      && UniqueIds(table) && UniqueNames(table) && |table| == |roster|
      && forall e :: e in roster ==> HasName(table, e.1)
  {
    var table := DropDuplicates(rows);
    DropDuplicatesUniqueIds(rows);
    DropDuplicatesUniqueNames(rows);
    RosterNamesAgree(rows, roster);
    forall e | e in roster ensures HasName(table, e.1) {
      DropDuplicatesKeepsNames(rows, e.1);
    }
    DropDuplicatesRosterNames(rows, roster);
    assert Distinct(RowNames(table));
    assert Distinct(NamesOf(roster));
    SameElementsSameLength(RowNames(table), NamesOf(roster));
  }

  /** With unique roster keys and names, the BLITZ.GG table that `project.py`
      builds holds, after dedup, exactly one row for each roster champion. */
  lemma BlitzTableOneRowPerChampion(roster: Roster, entries: seq<BlitzGG.ChampionStats>)
    requires DistinctKeys(roster) && DistinctNames(roster)
    ensures BlitzGG.SanitizeData(roster, entries).Ok? ==>
      var table := DropDuplicates(BlitzGG.SanitizeData(roster, entries).value.data.rows);
      && UniqueIds(table) && UniqueNames(table) && |table| == |roster|
      && forall e :: e in roster ==> HasName(table, e.1)
  {
    var result := BlitzGG.SanitizeData(roster, entries);
    if result.Ok? {
      var rows := BlitzGG.SanitizeEntries(roster, entries).value;
      var data := ChampionsData(BlitzGG, RoleList, rows);
      assert result == CompleteMissingChampionsData(data, roster);
      forall r | r in rows ensures r.id.IntId? {
        var i :| 0 <= i < |rows| && rows[i] == r;
        assert BlitzGG.SanitizeEntry(roster, entries[i]) == Ok(r);
      }
      BlitzRowsFromRoster(roster, entries);
      CompletionAppendsMissingEntries(data, roster);
      CompletionKeepsRosterNames(data, roster);
      CompletedRowsFollowNames(rows, roster);
      OneRowPerChampion(result.value.data.rows, roster);
    }
  }

  /** With unique roster keys and names, the OP.GG table that `project.py`
      builds holds, after dedup, exactly one row for each roster champion. */
  lemma OpGGTableOneRowPerChampion(roster: Roster, entries: seq<OpGG.ChampionStats>)
    requires DistinctKeys(roster) && DistinctNames(roster)
    ensures OpGG.SanitizeData(roster, entries).Ok? ==>
      var table := DropDuplicates(OpGG.SanitizeData(roster, entries).value.data.rows);
      && UniqueIds(table) && UniqueNames(table) && |table| == |roster|
      && forall e :: e in roster ==> HasName(table, e.1)
  {
    var result := OpGG.SanitizeData(roster, entries);
    if result.Ok? {
      var rows := OpGG.SanitizeEntries(roster, entries).value;
      assert result.value.data.rows == rows;
      forall r | r in rows ensures r.id.IntId? {
        var i :| 0 <= i < |rows| && rows[i] == r;
        assert OpGG.SanitizeEntry(roster, entries[i]) == Ok(r);
      }
      OpGGRowsFromRoster(roster, entries);
      ProviderRowsFollowNames(rows, roster);
      OneRowPerChampion(rows, roster);
    }
  }
}
