/** The scanner window: it runs the walk over the sidecars and the search
    for rows without a sidecar once when it opens, shows the four lists, and
    offers one action per list — delete the sidecars of missing files, add
    the new files to the index, update the outdated rows, delete the rows
    without a sidecar. */
module ScanWindow {
  import opened Basics
  import opened Storage
  import opened Database
  import opened BijiRecord
  import opened Scanner

  predicate Distinct(s: seq<string>)
  {
    forall i, j :: 0 <= i < j < |s| ==> s[i] != s[j]
  }

  /** The row keys of a list of tracked paths. */
  function KeysOf(files: seq<string>): set<string>
  {
    set f | f in files :: NoCase(f)
  }

  lemma KeysOfCons(files: seq<string>)
    requires files != []
    ensures KeysOf(files) == {NoCase(files[0])} + KeysOf(files[1..])
  {
    assert forall f :: f in files <==> f == files[0] || f in files[1..];
  }

  lemma KeysOfSnoc(files: seq<string>, f: string)
    ensures KeysOf(files + [f]) == KeysOf(files) + {NoCase(f)}
  {
    assert forall g :: g in files + [f] <==> g in files || g == f;
  }

  // ---------------------------------------------------------------------
  // Deleting the sidecars of missing files

  /** The sidecar paths of a list of tracked paths. */
  function SidecarsOf(files: seq<string>): set<string>
  {
    set f | f in files :: SidecarPath(f)
  }

  /** delete_biji_json_files' loop: unlink the sidecar of each file in turn;
      a sidecar already gone raises FileNotFoundError and stops the loop. */
  function SidecarsRemoved(sidecars: map<string, Dict>, files: seq<string>): Outcome<map<string, Dict>>
    decreases |files|
  {
    if files == [] then Outcome(sidecars, None)
    else
      var sp := SidecarPath(files[0]);
      if sp !in sidecars then Outcome(sidecars, Some(NotFound))
      else SidecarsRemoved(sidecars - {sp}, files[1..])
  }

  /** The loop only deletes sidecars, and never one of a file it was not
      given; when it gets through, every listed file's sidecar is gone; and
      it does get through when the files are distinct and each still has its
      sidecar, as they do right after the walk. */
  lemma {:induction false} SidecarsRemovedSpec(sidecars: map<string, Dict>, files: seq<string>)
    ensures var o := SidecarsRemoved(sidecars, files);
      && (forall p :: p in o.state ==> p in sidecars && o.state[p] == sidecars[p])
      && (forall p :: p in sidecars && p !in SidecarsOf(files) ==> p in o.state)
      && (o.error == None ==> o.state == sidecars - SidecarsOf(files))
      && ((forall f :: f in files ==> SidecarPath(f) in sidecars) && Distinct(files) ==> o.error == None)
    decreases |files|
  {
    if files != [] {
      var sp := SidecarPath(files[0]);
      var rest := files[1..];
      assert SidecarsOf(files) == {sp} + SidecarsOf(rest) by {
        assert forall f :: f in files <==> f == files[0] || f in rest;
      }
      if sp in sidecars {
        SidecarsRemovedSpec(sidecars - {sp}, rest);
        if (forall f :: f in files ==> SidecarPath(f) in sidecars) && Distinct(files) {
          forall f | f in rest
            ensures SidecarPath(f) in sidecars - {sp}
          {
            var j :| 0 <= j < |rest| && rest[j] == f;
            assert files[j + 1] == f;
            SidecarPathInjective(f, files[0]);
          }
          assert Distinct(rest) by {
            forall i, j | 0 <= i < j < |rest|
              ensures rest[i] != rest[j]
            {
              assert rest[i] == files[i + 1] && rest[j] == files[j + 1];
            }
          }
        }
      }
    }
  }

  // ---------------------------------------------------------------------
  // Adding and updating the listed files

  /** What add_to_database and update_database do with each listed file:
      insert_biji_and_tags_to_db or update_biji_and_tags_to_db. */
  datatype Reindex = Add | Refresh

  /** One listed file: from_file, then the write the action asks for. */
  function ReindexStep(w: World, f: string, a: Reindex, env: Env): Outcome<World>
  {
    match Load(w.files, w.sidecars, f, env)
    case Err(e) => Outcome(w, Some(e))
    case Ok(l) =>
      var o := if a == Add then BijiAndTagsInserted(w.db, l.0, env.now)
               else BijiAndTagsUpdated(w.db, l.0, env.now);
      Outcome(World(w.files, l.1, o.state), o.error)
  }

  /** The loop over the listed files; an exception stops it. */
  function Reindexed(w: World, files: seq<string>, a: Reindex, env: Env): Outcome<World>
    decreases |files|
  {
    if files == [] then Outcome(w, None)
    else
      var o := ReindexStep(w, files[0], a, env);
      if o.error.Some? then o else Reindexed(o.state, files[1..], a, env)
  }

  /** insert_biji_and_tags_to_db never touches a row that exists: it fails
      exactly when the file already has a row or the record has no
      bijiMTime, and when it succeeds the new row and the file's tags are
      the record's. */
  lemma InsertedSpec(t: Tables, b: Record, now: IsoTime)
    requires t.Valid()
    ensures var o := BijiAndTagsInserted(t, b, now);
      && o.state.Valid()
      && (forall k :: k in t.bijis ==> k in o.state.bijis && o.state.bijis[k] == t.bijis[k])
      && o.state.bijis.Keys <= t.bijis.Keys + {NoCase(b.filepath)}
      && (o.error == None <==> NoCase(b.filepath) !in t.bijis && b.bijiMTime != "")
      && (o.error == None ==> o.state.MTime(b.filepath) == b.bijiMTime && o.state.TagsOf(b.filepath) == b.tags)
  {
    var r := t.InsertBiji(ToRow(b));
    if r.Ok? {
      var u := r.value;
      assert u.links == t.links && u.bijis == t.bijis[NoCase(b.filepath) := ToRow(b)];
      NoRowNoLinks(t, b.filepath);
      assert u.TagsOf(b.filepath) == {};
      TagsInsertedSpec(u, b, now);
    }
  }

  /** update_biji_and_tags_to_db never adds or removes a row, never changes
      a row's filepath or filesize, and leaves the other files' rows alone.
      On a file with a row it fails only for an empty bijiMTime and
      otherwise leaves the row's bijiMTime and the file's tags as the
      record's; on a file without one, the update matches nothing and the
      tag links are refused unless the record has no tags. */
  lemma UpdatedSpec(t: Tables, b: Record, now: IsoTime)
    requires t.Valid()
    ensures var o := BijiAndTagsUpdated(t, b, now); var k := NoCase(b.filepath);
      && o.state.Valid() && o.state.bijis.Keys == t.bijis.Keys
      && (forall j :: j in t.bijis ==>
            && o.state.bijis[j].filepath == t.bijis[j].filepath
            && o.state.bijis[j].filesize == t.bijis[j].filesize
            && (j != k ==> o.state.bijis[j] == t.bijis[j]))
      && (k in t.bijis ==> (o.error == None <==> b.bijiMTime != ""))
      && (k in t.bijis && o.error == None ==>
            o.state.MTime(b.filepath) == b.bijiMTime && o.state.TagsOf(b.filepath) == b.tags)
      && (k !in t.bijis ==> (o.error == None <==> b.tags == {}))
  {
    UpdateBijiKeepsKeyAndSize(t, ToRow(b));
    var r := t.UpdateBiji(ToRow(b));
    if r.Ok? {
      var u := r.value;
      if NoCase(b.filepath) in t.bijis {
        TagsReplacedSpec(u, b, now);
      } else {
        var fp := b.filepath;
        UnlinkedSpec(u, u.TagsOf(fp), fp, now);
        TagsInsertedSpec(Unlinked(u, u.TagsOf(fp), fp, now), b, now);
      }
    }
  }

  /** add_to_database keeps every row it found, adds rows only for the
      listed files, and when it gets through every listed file has a row. */
  lemma {:induction false} AddedSpec(w: World, files: seq<string>, env: Env)
    requires w.db.Valid()
    ensures var o := Reindexed(w, files, Add, env);
      && o.state.db.Valid() && o.state.files == w.files
      && (forall k :: k in w.db.bijis ==> k in o.state.db.bijis && o.state.db.bijis[k] == w.db.bijis[k])
      && o.state.db.bijis.Keys <= w.db.bijis.Keys + KeysOf(files)
      && (o.error == None ==> forall f :: f in files ==> o.state.db.MTime(f) != "")
    decreases |files|
  {
    if files != [] {
      var f := files[0];
      KeysOfCons(files);
      LoadSpec(w.files, w.sidecars, f, env);
      match Load(w.files, w.sidecars, f, env)
      case Err(e) =>
      case Ok(l) =>
        InsertedSpec(w.db, l.0, env.now);
        var s := ReindexStep(w, f, Add, env);
        if s.error == None {
          AddedSpec(s.state, files[1..], env);
          assert forall g :: g in files ==> g == f || g in files[1..];
        }
    }
  }

  /** update_database never adds or removes a row and never changes a row's
      filepath or filesize; a row of a file it was not given stays as it
      was. */
  lemma {:induction false} RefreshedSpec(w: World, files: seq<string>, env: Env)
    requires w.db.Valid()
    ensures var o := Reindexed(w, files, Refresh, env);
      && o.state.db.Valid() && o.state.files == w.files
      && o.state.db.bijis.Keys == w.db.bijis.Keys
      && (forall k :: k in w.db.bijis ==>
            && o.state.db.bijis[k].filepath == w.db.bijis[k].filepath
            && o.state.db.bijis[k].filesize == w.db.bijis[k].filesize
            && (k !in KeysOf(files) ==> o.state.db.bijis[k] == w.db.bijis[k]))
    decreases |files|
  {
    if files != [] {
      var f := files[0];
      KeysOfCons(files);
      LoadSpec(w.files, w.sidecars, f, env);
      match Load(w.files, w.sidecars, f, env)
      case Err(e) =>
      case Ok(l) =>
        UpdatedSpec(w.db, l.0, env.now);
        var s := ReindexStep(w, f, Refresh, env);
        if s.error == None {
          RefreshedSpec(s.state, files[1..], env);
        }
    }
  }

  // ---------------------------------------------------------------------
  // Deleting the rows without a sidecar

  /** Deleting the rows the window lists is what delete_biji_json_not_exists
      in bijiscanner.py does: the listed paths are those of the rows without
      a sidecar, so their keys are exactly the orphan rows. */
  lemma RecordsDeletedAreOrphans(t: Tables, sidecars: map<string, Dict>, listed: seq<string>)
    requires t.Valid()
    requires forall f :: f in listed <==> f in NoJson(t, sidecars)
    ensures WithoutRows(t, KeysOf(listed)) == WithoutRows(t, Orphans(t, sidecars))
  {
    NoJsonOrphans(t, sidecars);
    assert KeysOf(listed) == set f | f in NoJson(t, sidecars) :: NoCase(f);
  }

  /** Deleting the rows of no path changes nothing. */
  lemma NothingDeleted(t: Tables)
    ensures WithoutRows(t, KeysOf([])) == t
  {
    var u := WithoutRows(t, {});
    assert KeysOf([]) == {};
    assert u.bijis == t.bijis && u.links == t.links && u.tags == t.tags;
  }

  /** Which rows lack a sidecar depends only on which sidecars exist, not
      on what they hold. */
  lemma SameSidecarNames(t: Tables, a: map<string, Dict>, b: map<string, Dict>)
    requires a.Keys == b.Keys
    ensures NoJson(t, a) == NoJson(t, b)
  {
    assert forall p :: p in a <==> p in b;
  }

  // ---------------------------------------------------------------------
  // The window

  class BijiScanner {
    var filesNotExists: seq<string>
    var notInDatabase: seq<string>
    var needToUpdate: seq<string>
    var bijiJsonNotExists: seq<string>
    /** Whether each list's box still accepts its action: a box is disabled
        once its action has run to the end. */
    var noFileEnabled: bool
    var newFileEnabled: bool
    var outdatedEnabled: bool
    var noJsonEnabled: bool

    /** Connect (creating the database file when there is none), then fill
        the four lists from the walk and the rows without a sidecar. */
    constructor (fs: FileSystem, db: BijiDatabase, env: Env)
      requires fs.Valid() && db.Valid()
      modifies fs, db
      ensures fs.Valid() && db.Valid() && db.connected
      ensures fs.files == old(fs.files) && fs.sidecars.Keys == old(fs.sidecars).Keys
      ensures db.Snapshot() == old(db.Snapshot())
      ensures noFileEnabled && newFileEnabled && outdatedEnabled && noJsonEnabled
      ensures Shows(old(fs.files), old(fs.sidecars), old(db.Snapshot()), env)
    {
      filesNotExists, notInDatabase, needToUpdate, bijiJsonNotExists := [], [], [], [];
      noFileEnabled, newFileEnabled, outdatedEnabled, noJsonEnabled := true, true, true, true;
      new;
      ghost var files0, sidecars0, t0 := fs.files, fs.sidecars, db.Snapshot();
      Open(db);
      ScanAll(fs, db, env);
      GetBijiJsonNotExists(fs, db);
      SameSidecarNames(t0, sidecars0, fs.sidecars);
      assert forall f :: f in bijiJsonNotExists <==> f in NoJson(t0, sidecars0);
    }

    /** The four lists hold exactly the files the scan finds in the state
        the window opened on: sidecar without its file, file without a row,
        row behind its sidecar, row without a sidecar. */
    ghost predicate Shows(files: map<string, Stat>, sidecars: map<string, Dict>, t: Tables, env: Env)
      reads this
    {
      forall f ::
        && (f in filesNotExists <==> SidecarPath(f) in sidecars && f !in files)
        && (f in notInDatabase <==> SidecarPath(f) in sidecars && f in files && t.MTime(f) == "")
        && (f in needToUpdate <==>
              SidecarPath(f) in sidecars && f in files && Newer(files, sidecars, t, f, env))
        && (f in bijiJsonNotExists <==> f in NoJson(t, sidecars))
    }

    /** scan_all: append the walk's missing, unindexed and outdated files to
        the lists. The walk cannot stop early: every sidecar it lists
        exists, and from_file of an existing file with its sidecar
        succeeds. */
    method ScanAll(fs: FileSystem, db: BijiDatabase, env: Env)
      requires fs.Valid() && db.Valid() && db.connected
      modifies this`filesNotExists, this`notInDatabase, this`needToUpdate, fs, db
      ensures fs.Valid() && db.Valid() && db.connected
      ensures fs.files == old(fs.files) && fs.sidecars.Keys == old(fs.sidecars).Keys
      ensures db.Snapshot() == old(db.Snapshot())
      ensures forall f ::
        && (f in filesNotExists <==>
              f in old(filesNotExists) || (SidecarPath(f) in old(fs.sidecars) && f !in old(fs.files)))
        && (f in notInDatabase <==>
              f in old(notInDatabase)
              || (SidecarPath(f) in old(fs.sidecars) && f in old(fs.files) && old(db.Snapshot()).MTime(f) == ""))
        && (f in needToUpdate <==>
              f in old(needToUpdate)
              || (SidecarPath(f) in old(fs.sidecars) && f in old(fs.files)
                  && Newer(old(fs.files), old(fs.sidecars), old(db.Snapshot()), f, env)))
    {
      ghost var files0, sidecars0, t0 := fs.files, fs.sidecars, db.Snapshot();
      var s, err := Survey(fs, db, env);
      ghost var ps :| Listing(ps, sidecars0)
        && Outcome((s, fs.sidecars), err) == SurveyFrom(files0, t0, NoBuckets, sidecars0, ps, env);
      SurveySpec(files0, t0, sidecars0, ps, env);
      filesNotExists := filesNotExists + s.missing;
      notInDatabase := notInDatabase + s.unindexed;
      needToUpdate := needToUpdate + s.outdated;
    }

    /** get_biji_json_not_exists: append the stored paths of the rows
        without a sidecar. */
    method GetBijiJsonNotExists(fs: FileSystem, db: BijiDatabase)
      requires db.Valid() && db.connected
      modifies this`bijiJsonNotExists
      ensures forall f :: f in bijiJsonNotExists <==>
        f in old(bijiJsonNotExists) || f in NoJson(db.Snapshot(), fs.sidecars)
    {
      var found := BijiJsonNotExists(fs, db);
      bijiJsonNotExists := bijiJsonNotExists + found;
    }

    /** delete_biji_json_files: nothing when the list is empty or the user
        declines; otherwise unlink each listed sidecar, and disable the box
        when all are gone. */
    method DeleteBijiJsonFiles(fs: FileSystem, confirmed: bool) returns (err: Option<Error>)
      requires fs.Valid() && noFileEnabled
      modifies this`noFileEnabled, fs
      ensures fs.Valid() && fs.files == old(fs.files)
      ensures filesNotExists == [] || !confirmed ==>
        err == None && fs.sidecars == old(fs.sidecars) && noFileEnabled
      ensures filesNotExists != [] && confirmed ==>
        && Outcome(fs.sidecars, err) == SidecarsRemoved(old(fs.sidecars), filesNotExists)
        && (noFileEnabled <==> err != None)
    {
      if filesNotExists == [] || !confirmed {
        return None;
      }
      ghost var sidecars0 := fs.sidecars;
      var i := 0;
      while i < |filesNotExists|
        invariant i <= |filesNotExists|
        invariant fs.Valid() && fs.files == old(fs.files)
        invariant noFileEnabled
        invariant SidecarsRemoved(sidecars0, filesNotExists)
                  == SidecarsRemoved(fs.sidecars, filesNotExists[i..])
      {
        assert filesNotExists[i..][1..] == filesNotExists[i + 1..];
        var sp := SidecarPath(filesNotExists[i]);
        ghost var before := fs.sidecars;
        err := fs.UnlinkSidecar(sp);
        if err.Some? {
          assert fs.sidecars == before;
          return;
        }
        i := i + 1;
      }
      err := None;
      noFileEnabled := false;
    }

    /** add_to_database: from_file and insert_biji_and_tags_to_db for each
        listed file; the box is disabled when all went in. */
    method AddToDatabase(fs: FileSystem, db: BijiDatabase, env: Env) returns (err: Option<Error>)
      requires fs.Valid() && db.Valid() && db.connected && newFileEnabled
      modifies this`newFileEnabled, fs, db
      ensures fs.Valid() && db.Valid() && db.connected
      ensures notInDatabase == [] ==> err == None && unchanged(fs) && db.Snapshot() == old(db.Snapshot()) && newFileEnabled
      ensures notInDatabase != [] ==>
        && Outcome(WorldOf(fs, db), err) == Reindexed(old(WorldOf(fs, db)), notInDatabase, Add, env)
        && (newFileEnabled <==> err != None)
    {
      if notInDatabase == [] {
        return None;
      }
      ghost var w0 := WorldOf(fs, db);
      var i := 0;
      while i < |notInDatabase|
        invariant i <= |notInDatabase|
        invariant fs.Valid() && db.Valid() && db.connected && newFileEnabled
        invariant Reindexed(w0, notInDatabase, Add, env) == Reindexed(WorldOf(fs, db), notInDatabase[i..], Add, env)
      {
        assert notInDatabase[i..][1..] == notInDatabase[i + 1..];
        err := ReindexOne(fs, db, notInDatabase[i], Add, env);
        if err.Some? {
          return;
        }
        i := i + 1;
      }
      err := None;
      newFileEnabled := false;
    }

    /** update_database: from_file and update_biji_and_tags_to_db for each
        listed file; the box is disabled when all were written. */
    method UpdateDatabase(fs: FileSystem, db: BijiDatabase, env: Env) returns (err: Option<Error>)
      requires fs.Valid() && db.Valid() && db.connected && outdatedEnabled
      modifies this`outdatedEnabled, fs, db
      ensures fs.Valid() && db.Valid() && db.connected
      ensures needToUpdate == [] ==> err == None && unchanged(fs) && db.Snapshot() == old(db.Snapshot()) && outdatedEnabled
      ensures needToUpdate != [] ==>
        && Outcome(WorldOf(fs, db), err) == Reindexed(old(WorldOf(fs, db)), needToUpdate, Refresh, env)
        && (outdatedEnabled <==> err != None)
    {
      if needToUpdate == [] {
        return None;
      }
      ghost var w0 := WorldOf(fs, db);
      var i := 0;
      while i < |needToUpdate|
        invariant i <= |needToUpdate|
        invariant fs.Valid() && db.Valid() && db.connected && outdatedEnabled
        invariant Reindexed(w0, needToUpdate, Refresh, env) == Reindexed(WorldOf(fs, db), needToUpdate[i..], Refresh, env)
      {
        assert needToUpdate[i..][1..] == needToUpdate[i + 1..];
        err := ReindexOne(fs, db, needToUpdate[i], Refresh, env);
        if err.Some? {
          return;
        }
        i := i + 1;
      }
      err := None;
      outdatedEnabled := false;
    }

    /** delete_records: delete_biji for each listed path; the box is
        disabled afterwards. */
    method DeleteRecords(db: BijiDatabase)
      requires db.Valid() && db.connected && noJsonEnabled
      modifies this`noJsonEnabled, db
      ensures db.Valid() && db.connected
      ensures bijiJsonNotExists == [] ==> db.Snapshot() == old(db.Snapshot()) && noJsonEnabled
      ensures bijiJsonNotExists != [] ==>
        db.Snapshot() == WithoutRows(old(db.Snapshot()), KeysOf(bijiJsonNotExists)) && !noJsonEnabled
    {
      if bijiJsonNotExists == [] {
        return;
      }
      ghost var t0 := db.Snapshot();
      NothingDeleted(t0);
      var i := 0;
      while i < |bijiJsonNotExists|
        invariant i <= |bijiJsonNotExists|
        invariant db.Valid() && db.connected
        invariant db.Snapshot() == WithoutRows(t0, KeysOf(bijiJsonNotExists[..i]))
      {
        DeleteRecord(db, t0, bijiJsonNotExists[..i], bijiJsonNotExists[i]);
        assert bijiJsonNotExists[..i + 1] == bijiJsonNotExists[..i] + [bijiJsonNotExists[i]];
        i := i + 1;
      }
      assert bijiJsonNotExists[..i] == bijiJsonNotExists;
      noJsonEnabled := false;
    }
  }

  /** The start of BijiScanner's constructor: connect_db, and on
      FileNotFoundError create_db and connect_db again. */
  method Open(db: BijiDatabase)
    requires db.Valid()
    modifies db
    ensures db.Valid() && db.connected && db.Snapshot() == old(db.Snapshot())
  {
    var err := db.ConnectDb();
    if err.Some? {
      err := db.CreateDb();
      err := db.ConnectDb();
    }
  }

  /** The body of delete_records' loop: delete_biji of the next listed
      path, after the paths `done` already deleted. */
  method DeleteRecord(db: BijiDatabase, ghost t0: Tables, ghost done: seq<string>, fp: string)
    requires db.Valid() && db.connected && t0.Valid()
    requires db.Snapshot() == WithoutRows(t0, KeysOf(done))
    modifies db
    ensures db.Valid() && db.connected
    ensures db.Snapshot() == WithoutRows(t0, KeysOf(done + [fp]))
  {
    DeleteStep(t0, KeysOf(done), fp);
    KeysOfSnoc(done, fp);
    db.DeleteBiji(fp);
  }

  /** The body of add_to_database's and update_database's loops for one
      file. */
  method ReindexOne(fs: FileSystem, db: BijiDatabase, f: string, a: Reindex, env: Env)
    returns (err: Option<Error>)
    requires fs.Valid() && db.Valid() && db.connected
    modifies fs, db
    ensures fs.Valid() && db.Valid() && db.connected
    ensures Outcome(WorldOf(fs, db), err) == ReindexStep(old(WorldOf(fs, db)), f, a, env)
  {
    var r := Biji.FromFile(fs, db, f, env);
    if r.Err? {
      return Some(r.error);
    }
    if a == Add {
      err := r.value.InsertBijiAndTagsToDb(db, env.now);
    } else {
      err := r.value.UpdateBijiAndTagsToDb(db, env.now);
    }
  }
}
