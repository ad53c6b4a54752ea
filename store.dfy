/**
 * The CSV-backed record store of app/tools.py: save, load, and the
 * fetch-convert-save refresh path. The file at the fixed CSV path is the
 * store's one field; the scraper's result is passed in.
 */
module Store {
  import opened Wrappers
  import opened State
  import opened Conversion

  /** What a load reads from the backing file; a missing file reads as no records. */
  function Loaded(file: Option<seq<PlayerStatus>>): seq<PlayerStatus> {
    match file
    case None => []
    case Some(players) => players
  }

  /** The backing file after saving `players`: saving nothing writes nothing. */
  function AfterSave(file: Option<seq<PlayerStatus>>, players: seq<PlayerStatus>): Option<seq<PlayerStatus>> {
    if players == [] then file else Some(players)
  }

  /** Saving an empty list leaves a populated store as it was. */
  lemma SaveEmptyKeepsStore(file: Option<seq<PlayerStatus>>)
    ensures AfterSave(file, []) == file
    ensures Loaded(AfterSave(file, [])) == Loaded(file)
  {
  }

  /** A non-empty save replaces the previous contents entirely; loading returns it in order. */
  lemma SaveThenLoad(file: Option<seq<PlayerStatus>>, players: seq<PlayerStatus>)
    requires players != []
    ensures AfterSave(file, players) == Some(players)
    ensures Loaded(AfterSave(file, players)) == players
  {
  }

  /** The later of two saves decides the store unless it saves nothing. */
  lemma LastSaveWins(file: Option<seq<PlayerStatus>>, first: seq<PlayerStatus>, second: seq<PlayerStatus>)
    ensures AfterSave(AfterSave(file, first), second) ==
              if second == [] then AfterSave(file, first) else AfterSave(file, second)
  {
  }

  /** As long as only saves write it, the file never holds an empty list, so loading [] means no file. */
  lemma EmptyLoadMeansNoFile(file: Option<seq<PlayerStatus>>, players: seq<PlayerStatus>)
    requires file != Some([])
    ensures AfterSave(file, players) != Some([])
    ensures Loaded(file) == [] <==> file.None?
  {
  }

  class InjuryStore {
    /** Contents of the CSV file; None while the file does not exist. */
    var file: Option<seq<PlayerStatus>>

    ghost predicate Valid()
      reads this
    {
      file != Some([])
    }

    /** A store whose data directory holds no CSV file yet. */
    constructor ()
      ensures Valid() && file.None?
    {
      file := None;
    }

    /** save_player_statuses_to_csv: writes nothing for an empty list, otherwise overwrites the file. */
    method Save(players: seq<PlayerStatus>)
      requires Valid()
      modifies this
      ensures Valid()
      ensures file == AfterSave(old(file), players)
      ensures players == [] ==> file == old(file)
      ensures players != [] ==> file == Some(players)
    {
      if players == [] {
        return;
      }
      file := Some(players);
    }

    /** load_player_statuses_from_csv: [] when there is no file, else the stored records in order. */
    method Load() returns (players: seq<PlayerStatus>)
      ensures file.None? ==> players == []
      ensures file.Some? ==> players == file.value
      ensures players == Loaded(file)
      ensures Valid() ==> (players == [] <==> file.None?)
    {
      if file.None? {
        return [];
      }
      var stored := file.value;
      players := [];
      var i := 0;
      while i < |stored|
        invariant 0 <= i <= |stored|
        invariant players == stored[..i]
      {
        // Each stored row is rebuilt as a record; the file holds records
        // verbatim, so the rebuilt record equals the stored one.
        var row := stored[i];
        players := players + [PlayerStatus(row.team, row.playerName, row.status, row.reason, row.expectedReturn)];
        i := i + 1;
      }
      assert stored[..i] == stored;
    }

    /**
     * fetch_and_store_injuries, with the scraped table passed in (None: the page
     * had no table). A failed fetch or conversion raises before the save and so
     * leaves the store untouched; otherwise the converted list is saved and returned.
     */
    method FetchAndStore(fetched: Option<Table>) returns (r: Result<seq<PlayerStatus>, Error>)
      requires Valid()
      modifies this
      ensures Valid()
      ensures fetched.None? ==> r == Err(NoTablesFound)
      ensures fetched.Some? && !HasRequiredColumns(fetched.value.columns) ==> r == Err(MissingRequiredColumns)
      ensures fetched.Some? && HasRequiredColumns(fetched.value.columns) ==>
                r == Ok(Converted(fetched.value.columns, fetched.value.rows))
      ensures r.Err? ==> file == old(file)
      ensures r.Ok? ==> file == AfterSave(old(file), r.value)
    {
      if fetched.None? {
        return Err(NoTablesFound);
      }
      var converted := DfToPlayerStatuses(fetched.value);
      if converted.Err? {
        return Err(converted.error);
      }
      Save(converted.value);
      return Ok(converted.value);
    }
  }
}
