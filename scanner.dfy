/** The reconciliation scanner: the walk over every sidecar that sorts the
    tracked files into those whose file is missing, those the index lacks
    and those whose sidecar is newer than the index; the pass that brings
    the index up to date; and the index rows left without a sidecar. */
module Scanner {
  import opened Basics
  import opened Storage
  import opened Database
  import opened BijiRecord

  /** The order the recursive glob for '*.biji.json' yields the sidecars in:
      each sidecar once, and nothing else. */
  ghost predicate Listing(ps: seq<string>, sidecars: map<string, Dict>)
  {
    && (forall p :: p in ps <==> p in sidecars)
    && (forall p :: p in ps ==> EndsWith(p, SidecarSuffix))
    && (forall i, j :: 0 <= i < j < |ps| ==> ps[i] != ps[j])
  }

  // ---------------------------------------------------------------------
  // The walk over the sidecars

  /** What scan_all collects, in the order found: the files whose sidecar
      exists but the file does not, the files that exist (each loaded with
      from_file), and of those the ones get_mtime reports no row for and the
      ones whose sidecar bijiMTime is newer than the row's. */
  datatype Buckets = Buckets(missing: seq<string>, present: seq<string>,
                             unindexed: seq<string>, outdated: seq<string>)

  const NoBuckets := Buckets([], [], [], [])

  /** The index holds the file, and the record from_file reads for it has a
      newer bijiMTime than the row. */
  predicate Newer(files: map<string, Stat>, sidecars: map<string, Dict>, db: Tables, f: string, env: Env)
  {
    var l := Load(files, sidecars, f, env);
    db.MTime(f) != "" && l.Ok? && Less(db.MTime(f), l.value.0.bijiMTime)
  }

  /** One sidecar `p` of the walk; from_file may rewrite the sidecar. */
  function SurveyStep(files: map<string, Stat>, db: Tables, s: Buckets, sidecars: map<string, Dict>,
                      p: string, env: Env): Result<(Buckets, map<string, Dict>)>
    requires EndsWith(p, SidecarSuffix)
  {
    var f := TrackedPath(p);
    if f !in files then Ok((s.(missing := s.missing + [f]), sidecars))
    else match Load(files, sidecars, f, env)
      case Err(e) => Err(e)
      case Ok(l) =>
        var s1 := s.(present := s.present + [f]);
        var m := db.MTime(f);
        if m == "" then Ok((s1.(unindexed := s1.unindexed + [f]), l.1))
        else if Less(m, l.0.bijiMTime) then Ok((s1.(outdated := s1.outdated + [f]), l.1))
        else Ok((s1, l.1))
  }

  /** The walk over the sidecars `ps`; an exception stops it. */
  function SurveyFrom(files: map<string, Stat>, db: Tables, s: Buckets, sidecars: map<string, Dict>,
                      ps: seq<string>, env: Env): Outcome<(Buckets, map<string, Dict>)>
    requires forall p :: p in ps ==> EndsWith(p, SidecarSuffix)
    decreases |ps|
  {
    if ps == [] then Outcome((s, sidecars), None)
    else match SurveyStep(files, db, s, sidecars, ps[0], env)
      case Err(e) => Outcome((s, sidecars), Some(e))
      case Ok(r) => SurveyFrom(files, db, r.0, r.1, ps[1..], env)
  }

  /** The four lists hold exactly what their names say, about the state the
      walk started from. */
  ghost predicate Classifies(files: map<string, Stat>, db: Tables, sidecars: map<string, Dict>, s: Buckets, env: Env)
  {
    forall f ::
      && (f in s.missing <==> SidecarPath(f) in sidecars && f !in files)
      && (f in s.present <==> SidecarPath(f) in sidecars && f in files)
      && (f in s.unindexed <==> SidecarPath(f) in sidecars && f in files && db.MTime(f) == "")
      && (f in s.outdated <==> SidecarPath(f) in sidecars && f in files && Newer(files, sidecars, db, f, env))
  }

  /** Loading a file reads only its own sidecar. */
  lemma LoadOutside(files: map<string, Stat>, a: map<string, Dict>, b: map<string, Dict>, sp: string, f: string, env: Env)
    requires SameOutside(a, b, sp) && SidecarPath(f) != sp
    ensures Load(files, a, f, env).Ok? == Load(files, b, f, env).Ok?
    ensures Load(files, a, f, env).Ok? ==> Load(files, a, f, env).value.0 == Load(files, b, f, env).value.0
  {
  }

  /** One step of the walk, seen from a path f. */
  lemma SurveyStepSpec(files: map<string, Stat>, db: Tables, s: Buckets, sidecars: map<string, Dict>,
                       p: string, env: Env, f: string)
    requires p in sidecars && EndsWith(p, SidecarSuffix)
    ensures var r := SurveyStep(files, db, s, sidecars, p, env); var here := SidecarPath(f) == p;
      && r.Ok? && r.value.1.Keys == sidecars.Keys && SameOutside(r.value.1, sidecars, p)
      && FileTags(r.value.1, f) == FileTags(sidecars, f)
      && (f in r.value.0.missing <==> f in s.missing || (here && f !in files))
      && (f in r.value.0.present <==> f in s.present || (here && f in files))
      && (f in r.value.0.unindexed <==> f in s.unindexed || (here && f in files && db.MTime(f) == ""))
      && (f in r.value.0.outdated <==> f in s.outdated || (here && f in files && Newer(files, sidecars, db, f, env)))
  {
    var g := TrackedPath(p);
    SidecarPathRoundTrip(g, p);
    SidecarPathInjective(f, g);
    assert SidecarPath(f) == p <==> f == g;
    if g in files {
      LoadKeepsSidecars(files, sidecars, g, env, f);
      var l := Load(files, sidecars, g, env).value;
      var s1 := s.(present := s.present + [g]);
      var m := db.MTime(g);
      assert Newer(files, sidecars, db, g, env) <==> m != "" && Less(m, l.0.bijiMTime);
      if m == "" {
        assert SurveyStep(files, db, s, sidecars, p, env) == Ok((s1.(unindexed := s1.unindexed + [g]), l.1));
      } else if Less(m, l.0.bijiMTime) {
        assert SurveyStep(files, db, s, sidecars, p, env) == Ok((s1.(outdated := s1.outdated + [g]), l.1));
      } else {
        assert SurveyStep(files, db, s, sidecars, p, env) == Ok((s1, l.1));
      }
    }
  }

  /** from_file of an existing file with a sidecar succeeds, keeps every
      sidecar and the tags each records, and touches no other sidecar. */
  lemma LoadKeepsSidecars(files: map<string, Stat>, sidecars: map<string, Dict>, g: string, env: Env, f: string)
    requires SidecarPath(g) in sidecars && g in files
    ensures var r := Load(files, sidecars, g, env);
      && r.Ok? && r.value.1.Keys == sidecars.Keys && SameOutside(r.value.1, sidecars, SidecarPath(g))
      && FileTags(r.value.1, f) == FileTags(sidecars, f)
  {
    LoadedFromSidecar(files, sidecars, g, env);
    var l := Load(files, sidecars, g, env).value;
    assert l.1.Keys == sidecars.Keys;
    if f != g {
      SidecarPathInjective(f, g);
      FileTagsOutside(l.1, sidecars, SidecarPath(g), f);
    }
  }

  /** The rest of the walk, seen from a path f: nothing fails while every
      sidecar still to visit exists, and f lands in a list exactly when its
      sidecar is among those visited. */
  lemma {:induction false} SurveyFromSpec(files: map<string, Stat>, db: Tables, s: Buckets, sidecars: map<string, Dict>,
                                          ps: seq<string>, env: Env, f: string)
    requires forall p :: p in ps ==> p in sidecars && EndsWith(p, SidecarSuffix)
    requires forall i, j :: 0 <= i < j < |ps| ==> ps[i] != ps[j]
    ensures var o := SurveyFrom(files, db, s, sidecars, ps, env); var walked := SidecarPath(f) in ps;
      && o.error == None && o.state.1.Keys == sidecars.Keys
      && FileTags(o.state.1, f) == FileTags(sidecars, f)
      && (f in o.state.0.missing <==> f in s.missing || (walked && f !in files))
      && (f in o.state.0.present <==> f in s.present || (walked && f in files))
      && (f in o.state.0.unindexed <==> f in s.unindexed || (walked && f in files && db.MTime(f) == ""))
      && (f in o.state.0.outdated <==> f in s.outdated || (walked && f in files && Newer(files, sidecars, db, f, env)))
    decreases |ps|
  {
    if ps != [] {
      var p := ps[0];
      SurveyStepSpec(files, db, s, sidecars, p, env, f);
      var r := SurveyStep(files, db, s, sidecars, p, env).value;
      forall q | q in ps[1..]
        ensures q in r.1 && EndsWith(q, SidecarSuffix)
      {
      }
      SurveyFromSpec(files, db, r.0, r.1, ps[1..], env, f);
      assert SurveyFrom(files, db, s, sidecars, ps, env) == SurveyFrom(files, db, r.0, r.1, ps[1..], env);
      if SidecarPath(f) in ps[1..] {
        var j :| 0 <= j < |ps[1..]| && ps[1..][j] == SidecarPath(f);
        assert ps[j + 1] != ps[0];
        LoadOutside(files, r.1, sidecars, p, f, env);
      }
      assert SidecarPath(f) in ps <==> SidecarPath(f) == p || SidecarPath(f) in ps[1..];
    }
  }

  /** A walk over every sidecar raises nothing and classifies every path:
      "Files not exist" holds exactly the paths whose sidecar exists but
      whose file does not, "Not in database" exactly the existing files with
      no index row, and "Need to update" exactly the indexed files whose
      sidecar bijiMTime is strictly newer, so equal timestamps are never
      flagged. The walk never changes which sidecars exist or the tags they
      record. */
  lemma SurveySpec(files: map<string, Stat>, db: Tables, sidecars: map<string, Dict>, ps: seq<string>, env: Env)
    requires Listing(ps, sidecars)
    ensures var o := SurveyFrom(files, db, NoBuckets, sidecars, ps, env);
      && o.error == None && Classifies(files, db, sidecars, o.state.0, env)
      && o.state.1.Keys == sidecars.Keys
      && (forall f :: FileTags(o.state.1, f) == FileTags(sidecars, f))
  {
    var o := SurveyFrom(files, db, NoBuckets, sidecars, ps, env);
    forall f
      ensures FileTags(o.state.1, f) == FileTags(sidecars, f)
      ensures && (f in o.state.0.missing <==> SidecarPath(f) in sidecars && f !in files)
              && (f in o.state.0.present <==> SidecarPath(f) in sidecars && f in files)
              && (f in o.state.0.unindexed <==> SidecarPath(f) in sidecars && f in files && db.MTime(f) == "")
              && (f in o.state.0.outdated <==> SidecarPath(f) in sidecars && f in files && Newer(files, sidecars, db, f, env))
    {
      SurveyFromSpec(files, db, NoBuckets, sidecars, ps, env, f);
    }
    if ps == [] {
      assert sidecars.Keys == {};
    } else {
      SurveyFromSpec(files, db, NoBuckets, sidecars, ps, env, "");
    }
  }

  /** Of the four lists the scanner window shows, no path is in two: a
      missing file has no row to compare, an existing one is either without
      a row or behind its sidecar, and a row without a sidecar was never
      walked. */
  lemma BucketsDisjoint(files: map<string, Stat>, db: Tables, sidecars: map<string, Dict>, ps: seq<string>,
                        env: Env, noJson: set<string>, f: string)
    requires Listing(ps, sidecars)
    requires forall g :: g in noJson <==> g in db.Filepaths() && SidecarPath(g) !in sidecars
    ensures var s := SurveyFrom(files, db, NoBuckets, sidecars, ps, env).state.0;
      && !(f in s.missing && f in s.unindexed) && !(f in s.missing && f in s.outdated)
      && !(f in s.unindexed && f in s.outdated)
      && !(f in noJson && (f in s.missing || f in s.unindexed || f in s.outdated))
  {
    SurveySpec(files, db, sidecars, ps, env);
  }

  /** The walk over the sidecars, shared by scan_all in bijiscanner.py and
      by the scanner window. */
  method Survey(fs: FileSystem, db: BijiDatabase, env: Env) returns (s: Buckets, err: Option<Error>)
    requires fs.Valid() && db.Valid()
    modifies fs, db
    ensures fs.Valid() && db.Valid() && fs.files == old(fs.files) && db.Snapshot() == old(db.Snapshot())
    ensures old(db.connected) ==> db.connected
    ensures exists ps :: (Listing(ps, old(fs.sidecars)) &&
      Outcome((s, fs.sidecars), err) == SurveyFrom(old(fs.files), old(db.Snapshot()), NoBuckets, old(fs.sidecars), ps, env))
  {
    var paths := fs.Glob();
    ghost var files0, sidecars0, t0 := fs.files, fs.sidecars, db.Snapshot();
    assert Listing(paths, sidecars0);
    s := NoBuckets;
    var i := 0;
    while i < |paths|
      invariant i <= |paths|
      invariant fs.Valid() && db.Valid() && fs.files == files0 && db.Snapshot() == t0
      invariant old(db.connected) ==> db.connected
      invariant SurveyFrom(files0, t0, NoBuckets, sidecars0, paths, env)
                == SurveyFrom(files0, t0, s, fs.sidecars, paths[i..], env)
    {
      assert paths[i..][1..] == paths[i + 1..];
      s, err := SurveyOne(fs, db, s, paths[i], env);
      if err.Some? {
        return;
      }
      i := i + 1;
    }
    err := None;
  }

  /** The body of scan_all's loop for the sidecar `p`. */
  method SurveyOne(fs: FileSystem, db: BijiDatabase, s: Buckets, p: string, env: Env)
    returns (s': Buckets, err: Option<Error>)
    requires fs.Valid() && db.Valid() && EndsWith(p, SidecarSuffix)
    modifies fs, db
    ensures fs.Valid() && db.Valid() && fs.files == old(fs.files) && db.Snapshot() == old(db.Snapshot())
    ensures old(db.connected) ==> db.connected
    ensures match SurveyStep(old(fs.files), old(db.Snapshot()), s, old(fs.sidecars), p, env)
      case Err(e) => err == Some(e) && s' == s && fs.sidecars == old(fs.sidecars)
      case Ok(r) => err == None && (s', fs.sidecars) == r
  {
    var f := TrackedPath(p);
    var present := fs.FileExists(f);
    if !present {
      return s.(missing := s.missing + [f]), None;
    }
    var r := Biji.FromFile(fs, db, f, env);
    if r.Err? {
      return s, Some(r.error);
    }
    var m := db.GetMTime(f);
    s' := s.(present := s.present + [f]);
    if m == "" {
      s' := s'.(unindexed := s'.unindexed + [f]);
    } else if Less(m, r.value.bijiMTime) {
      s' := s'.(outdated := s'.outdated + [f]);
    }
    err := None;
  }

  /** scan_all: the files whose sidecar and file both exist. */
  method ScanAll(fs: FileSystem, db: BijiDatabase, env: Env) returns (files: seq<string>)
    requires fs.Valid() && db.Valid()
    modifies fs, db
    ensures fs.Valid() && db.Valid() && fs.files == old(fs.files) && db.Snapshot() == old(db.Snapshot())
    ensures forall f :: f in files <==> SidecarPath(f) in old(fs.sidecars) && f in old(fs.files)
    ensures fs.sidecars.Keys == old(fs.sidecars).Keys
    ensures forall f :: FileTags(fs.sidecars, f) == FileTags(old(fs.sidecars), f)
  {
    ghost var files0, sidecars0, t0 := fs.files, fs.sidecars, db.Snapshot();
    var s, err := Survey(fs, db, env);
    ghost var ps :| Listing(ps, sidecars0) &&
      Outcome((s, fs.sidecars), err) == SurveyFrom(files0, t0, NoBuckets, sidecars0, ps, env);
    SurveySpec(files0, t0, sidecars0, ps, env);
    files := s.present;
  }

  // ---------------------------------------------------------------------
  // Bringing the index up to date

  /** scan_all_and_update_db for one sidecar `p`: a sidecar without its
      file is skipped; otherwise the file is loaded and the index step of
      update_tags_for_files runs (insert when there is no row, update when
      the sidecar is newer, nothing otherwise). */
  function UpdateStep(w: World, p: string, env: Env): Outcome<World>
    requires EndsWith(p, SidecarSuffix)
  {
    var f := TrackedPath(p);
    if f !in w.files then Outcome(w, None)
    else match Load(w.files, w.sidecars, f, env)
      case Err(e) => Outcome(w, Some(e))
      case Ok(l) =>
        var o := Synced(w.db, l.0, env.now);
        Outcome(World(w.files, l.1, o.state), o.error)
  }

  /** scan_all_and_update_db over the sidecars `ps`; an exception stops it. */
  function UpdateFrom(w: World, ps: seq<string>, env: Env): Outcome<World>
    requires forall p :: p in ps ==> EndsWith(p, SidecarSuffix)
    decreases |ps|
  {
    if ps == [] then Outcome(w, None)
    else
      var o := UpdateStep(w, ps[0], env);
      if o.error.Some? then o else UpdateFrom(o.state, ps[1..], env)
  }

  /** A sidecar without its file changes nothing. For an existing file the
      record carries the file's path and its sidecar's tags; the step fails
      only when a row would be inserted with an empty bijiMTime; an
      unindexed or outdated file gets the record's bijiMTime and exactly
      its tags in the index; any other file's index entry is left alone. */
  lemma UpdateStepSpec(w: World, p: string, env: Env)
    requires w.db.Valid() && p in w.sidecars && EndsWith(p, SidecarSuffix)
    ensures var f := TrackedPath(p); var o := UpdateStep(w, p, env);
      && o.state.files == w.files && o.state.db.Valid()
      && (f !in w.files ==> o == Outcome(w, None))
      && (f in w.files ==>
            && Load(w.files, w.sidecars, f, env).Ok?
            && var b := Load(w.files, w.sidecars, f, env).value.0; var m := w.db.MTime(f);
            && b.filepath == f && b.tags == StoredTags(w.sidecars[p])
            && (o.error != None <==> m == "" && b.bijiMTime == "")
            && (o.error == None && (m == "" || Less(m, b.bijiMTime)) ==>
                  o.state.db.MTime(f) == b.bijiMTime && o.state.db.TagsOf(f) == b.tags)
            && (m != "" && !Less(m, b.bijiMTime) ==> o == Outcome(World(w.files, o.state.sidecars, w.db), None)))
  {
    var f := TrackedPath(p);
    SidecarPathRoundTrip(f, p);
    if f in w.files {
      LoadSpec(w.files, w.sidecars, f, env);
      SyncedSpec(w.db, Load(w.files, w.sidecars, f, env).value.0, env.now);
    }
  }

  /** Loading a file again after from_file gives the same record and
      rewrites nothing: a stale filepath was corrected the first time. */
  lemma LoadAgain(files: map<string, Stat>, sidecars: map<string, Dict>, f: string, env: Env)
    requires Load(files, sidecars, f, env).Ok?
    ensures var l := Load(files, sidecars, f, env).value;
      Load(files, l.1, f, env) == Ok(l)
  {
    var sp := SidecarPath(f);
    var start := Fresh(f, {}, files[f], env);
    var b := Overlay(start, sidecars[sp]);
    if StalePath(sidecars[sp], f) {
      OverlayAsDict(start, b.(filepath := f));
      AsDictNotStale(b.(filepath := f));
    }
  }

  /** After a file was inserted or updated, an immediate second pass over
      its sidecar changes nothing. */
  lemma UpdateStepIdempotent(w: World, p: string, env: Env)
    requires w.db.Valid() && EndsWith(p, SidecarSuffix)
    requires UpdateStep(w, p, env).error == None
    ensures var s := UpdateStep(w, p, env).state;
      UpdateStep(s, p, env) == Outcome(s, None)
  {
    var f := TrackedPath(p);
    if f in w.files {
      var l := Load(w.files, w.sidecars, f, env).value;
      LoadAgain(w.files, w.sidecars, f, env);
      SyncedIdempotent(w.db, l.0, env.now);
    }
  }

  /** scan_all_and_update_db. */
  method ScanAllAndUpdateDb(fs: FileSystem, db: BijiDatabase, env: Env) returns (err: Option<Error>)
    requires fs.Valid() && db.Valid()
    modifies fs, db
    ensures fs.Valid() && db.Valid()
    ensures exists ps :: (Listing(ps, old(fs.sidecars)) &&
      Outcome(WorldOf(fs, db), err) == UpdateFrom(old(WorldOf(fs, db)), ps, env))
  {
    var paths := fs.Glob();
    ghost var w0 := WorldOf(fs, db);
    assert Listing(paths, w0.sidecars);
    var i := 0;
    while i < |paths|
      invariant i <= |paths|
      invariant fs.Valid() && db.Valid()
      invariant UpdateFrom(w0, paths, env) == UpdateFrom(WorldOf(fs, db), paths[i..], env)
    {
      assert paths[i..][1..] == paths[i + 1..];
      err := UpdateOne(fs, db, paths[i], env);
      if err.Some? {
        return;
      }
      i := i + 1;
    }
    err := None;
  }

  /** The body of scan_all_and_update_db's loop for the sidecar `p`. */
  method UpdateOne(fs: FileSystem, db: BijiDatabase, p: string, env: Env) returns (err: Option<Error>)
    requires fs.Valid() && db.Valid() && EndsWith(p, SidecarSuffix)
    modifies fs, db
    ensures fs.Valid() && db.Valid()
    ensures Outcome(WorldOf(fs, db), err) == UpdateStep(old(WorldOf(fs, db)), p, env)
  {
    var f := TrackedPath(p);
    var present := fs.FileExists(f);
    err := None;
    if present {
      var r := Biji.FromFile(fs, db, f, env);
      if r.Err? {
        return Some(r.error);
      }
      err := r.value.SyncToDb(db, env.now);
    }
  }

  // ---------------------------------------------------------------------
  // Index rows without a sidecar

  /** The stored filepaths whose sidecar is absent. */
  function NoJson(t: Tables, sidecars: map<string, Dict>): set<string>
  {
    set f | f in t.Filepaths() && SidecarPath(f) !in sidecars
  }

  /** The keys of the rows whose sidecar is absent. */
  function Orphans(t: Tables, sidecars: map<string, Dict>): set<string>
  {
    set k | k in t.bijis && SidecarPath(t.bijis[k].filepath) !in sidecars
  }

  /** The tables once the rows with the given keys are deleted, with the
      cascade on tag_biji. */
  function WithoutRows(t: Tables, keys: set<string>): Tables
  {
    Tables(map k | k in t.bijis && k !in keys :: t.bijis[k], t.tags,
           map l | l in t.links && NoCase(l.filepath) !in keys :: t.links[l])
  }

  /** Deleting one more filepath deletes one more key. */
  lemma DeleteStep(t: Tables, keys: set<string>, filepath: string)
    requires t.Valid()
    ensures WithoutRows(t, keys).DeleteBiji(filepath) == WithoutRows(t, keys + {NoCase(filepath)})
  {
    if NoCase(filepath) in WithoutRows(t, keys).bijis {
      DeletePresent(t, keys, filepath);
    } else {
      DeleteAbsent(t, keys, filepath);
    }
  }

  lemma DeletePresent(t: Tables, keys: set<string>, filepath: string)
    requires NoCase(filepath) in WithoutRows(t, keys).bijis
    ensures WithoutRows(t, keys).DeleteBiji(filepath) == WithoutRows(t, keys + {NoCase(filepath)})
  {
    var k := NoCase(filepath);
    var d := WithoutRows(t, keys).DeleteBiji(filepath);
    var v := WithoutRows(t, keys + {k});
    DeleteStepRows(t, keys, k);
    DeleteStepLinks(t, keys, k);
    assert d.bijis == v.bijis && d.links == v.links && d.tags == v.tags;
  }

  lemma DeleteAbsent(t: Tables, keys: set<string>, filepath: string)
    requires t.Valid() && NoCase(filepath) !in WithoutRows(t, keys).bijis
    ensures WithoutRows(t, keys).DeleteBiji(filepath) == WithoutRows(t, keys + {NoCase(filepath)})
  {
    var k := NoCase(filepath);
    var u := WithoutRows(t, keys);
    assert forall l :: l in t.links ==> NoCase(l.filepath) in t.bijis;
    DeleteAbsentRows(t, keys, k);
    DeleteAbsentLinks(t, keys, k);
    assert u.DeleteBiji(filepath) == u;
  }

  lemma DeleteStepRows(t: Tables, keys: set<string>, k: string)
    ensures WithoutRows(t, keys).bijis - {k} == WithoutRows(t, keys + {k}).bijis
  {
  }

  lemma DeleteStepLinks(t: Tables, keys: set<string>, k: string)
    ensures var u := WithoutRows(t, keys);
      (map l | l in u.links && NoCase(l.filepath) != k :: u.links[l]) == WithoutRows(t, keys + {k}).links
  {
  }

  lemma DeleteAbsentRows(t: Tables, keys: set<string>, k: string)
    requires k !in WithoutRows(t, keys).bijis
    ensures WithoutRows(t, keys).bijis == WithoutRows(t, keys + {k}).bijis
  {
  }

  lemma DeleteAbsentLinks(t: Tables, keys: set<string>, k: string)
    requires k !in WithoutRows(t, keys).bijis
    requires forall l :: l in t.links ==> NoCase(l.filepath) in t.bijis
    ensures WithoutRows(t, keys).links == WithoutRows(t, keys + {k}).links
  {
  }

  /** Deleting rows keeps the schema's constraints, deletes exactly those
      rows and the links naming them, and leaves every other row, every
      other link and the tags alone. */
  lemma WithoutRowsSpec(t: Tables, keys: set<string>, f: string)
    requires t.Valid()
    ensures var u := WithoutRows(t, keys);
      && u.Valid() && u.tags == t.tags
      && (NoCase(f) in keys ==> u.MTime(f) == "" && u.TagsOf(f) == {})
      && (NoCase(f) !in keys ==>
            && u.MTime(f) == t.MTime(f) && u.TagsOf(f) == t.TagsOf(f)
            && (NoCase(f) in t.bijis ==> u.bijis[NoCase(f)] == t.bijis[NoCase(f)]))
  {
    var u := WithoutRows(t, keys);
    if NoCase(f) in keys {
      assert forall l :: l in u.links ==> l.filepath != f;
    } else {
      assert u.TagsOf(f) == t.TagsOf(f) by {
        forall x | x in t.TagsOf(f)
          ensures x in u.TagsOf(f)
        {
          var l :| l in t.links && l.filepath == f && l.tag == x;
          assert l in u.links;
        }
      }
    }
  }

  /** After delete_biji_json_not_exists every remaining row has a sidecar,
      and a row that had one keeps its columns and its tags. */
  lemma OrphansRemoved(t: Tables, sidecars: map<string, Dict>, k: string)
    requires t.Valid()
    ensures var u := WithoutRows(t, Orphans(t, sidecars));
      && u.Valid()
      && (k in u.bijis ==> SidecarPath(u.bijis[k].filepath) in sidecars)
      && (k in t.bijis && SidecarPath(t.bijis[k].filepath) in sidecars ==>
            k in u.bijis && u.bijis[k] == t.bijis[k]
            && u.TagsOf(t.bijis[k].filepath) == t.TagsOf(t.bijis[k].filepath))
  {
    if k in t.bijis {
      WithoutRowsSpec(t, Orphans(t, sidecars), t.bijis[k].filepath);
    } else {
      WithoutRowsSpec(t, Orphans(t, sidecars), "");
    }
  }

  /** The rows biji_json_not_exists reports are the rows
      delete_biji_json_not_exists deletes, so deleting the reported
      filepaths one by one has the same effect. */
  lemma NoJsonOrphans(t: Tables, sidecars: map<string, Dict>)
    requires t.Valid()
    ensures (set f | f in NoJson(t, sidecars) :: NoCase(f)) == Orphans(t, sidecars)
  {
    var keys := set f | f in NoJson(t, sidecars) :: NoCase(f);
    forall k | k in Orphans(t, sidecars)
      ensures k in keys
    {
      assert t.bijis[k].filepath in NoJson(t, sidecars);
    }
    forall k | k in keys
      ensures k in Orphans(t, sidecars)
    {
      var f :| f in NoJson(t, sidecars) && NoCase(f) == k;
      var k2 :| k2 in t.bijis && t.bijis[k2].filepath == f;
    }
  }

  /** biji_json_not_exists. */
  method BijiJsonNotExists(fs: FileSystem, db: BijiDatabase) returns (result: seq<string>)
    requires db.Valid() && db.connected
    ensures forall f :: f in result <==> f in NoJson(db.Snapshot(), fs.sidecars)
  {
    var rows := db.GetAllFilepaths();
    result := [];
    var i := 0;
    while i < |rows|
      invariant i <= |rows|
      invariant forall f :: f in result <==> f in rows[..i] && SidecarPath(f) !in fs.sidecars
    {
      var has := fs.SidecarExists(SidecarPath(rows[i]));
      if !has {
        result := result + [rows[i]];
      }
      assert rows[..i + 1] == rows[..i] + [rows[i]];
      i := i + 1;
    }
    assert rows[..i] == rows;
  }

  /** The keys of the orphaned rows whose stored filepath is among `walked`. */
  ghost function OrphansAmong(t: Tables, sidecars: map<string, Dict>, walked: seq<string>): set<string>
  {
    set k | k in Orphans(t, sidecars) && t.bijis[k].filepath in walked
  }

  lemma OrphansAmongStep(t: Tables, sidecars: map<string, Dict>, walked: seq<string>, fp: string)
    requires t.Valid() && NoCase(fp) in t.bijis && t.bijis[NoCase(fp)].filepath == fp
    ensures OrphansAmong(t, sidecars, walked + [fp])
            == OrphansAmong(t, sidecars, walked) + (if SidecarPath(fp) in sidecars then {} else {NoCase(fp)})
  {
    var k0 := NoCase(fp);
    forall k
      ensures k in OrphansAmong(t, sidecars, walked + [fp]) <==>
              k in OrphansAmong(t, sidecars, walked) || (k == k0 && SidecarPath(fp) !in sidecars)
    {
      if k in t.bijis && t.bijis[k].filepath == fp {
        assert k == k0;
      }
    }
  }

  /** Each filepath of `rows` is the stored filepath of its own row. */
  ghost predicate RowsOf(t: Tables, rows: seq<string>)
  {
    && (forall f :: f in rows <==> f in t.Filepaths())
    && (forall j :: 0 <= j < |rows| ==> NoCase(rows[j]) in t.bijis && t.bijis[NoCase(rows[j])].filepath == rows[j])
  }

  /** Once every row was walked, the orphans met are all the orphans. */
  lemma OrphansAmongAll(t: Tables, sidecars: map<string, Dict>, rows: seq<string>)
    requires RowsOf(t, rows)
    ensures OrphansAmong(t, sidecars, rows) == Orphans(t, sidecars)
  {
    forall k | k in t.bijis
      ensures t.bijis[k].filepath in rows
    {
      assert t.bijis[k].filepath in t.Filepaths();
    }
  }

  /** delete_biji_json_not_exists. */
  method DeleteBijiJsonNotExists(fs: FileSystem, db: BijiDatabase)
    requires db.Valid() && db.connected
    modifies db
    ensures db.Valid() && db.connected && db.fileExists
    ensures db.Snapshot() == WithoutRows(old(db.Snapshot()), Orphans(old(db.Snapshot()), fs.sidecars))
  {
    ghost var t0 := db.Snapshot();
    var rows := db.GetAllFilepaths();
    assert RowsOf(t0, rows);
    DeleteOrphansOf(fs, db, rows);
    OrphansAmongAll(t0, fs.sidecars, rows);
  }

  /** delete_biji_json_not_exists' loop over the rows `rows` fetched from
      the index. */
  method DeleteOrphansOf(fs: FileSystem, db: BijiDatabase, rows: seq<string>)
    requires db.Valid() && db.connected && RowsOf(db.Snapshot(), rows)
    modifies db
    ensures db.Valid() && db.connected && db.fileExists
    ensures db.Snapshot() == WithoutRows(old(db.Snapshot()), OrphansAmong(old(db.Snapshot()), fs.sidecars, rows))
  {
    ghost var t0 := db.Snapshot();
    ghost var gone: set<string> := {};
    var i := 0;
    while i < |rows|
      invariant i <= |rows|
      invariant db.Valid() && db.connected && db.fileExists
      invariant db.Snapshot() == WithoutRows(t0, gone)
      invariant gone == OrphansAmong(t0, fs.sidecars, rows[..i])
    {
      assert rows[..i + 1] == rows[..i] + [rows[i]];
      gone := DeleteIfOrphan(fs, db, rows[i], t0, gone, rows[..i]);
      i := i + 1;
    }
    assert rows[..i] == rows;
  }

  /** The body of delete_biji_json_not_exists' loop for the row of `fp`. */
  method DeleteIfOrphan(fs: FileSystem, db: BijiDatabase, fp: string, ghost t0: Tables,
                        ghost gone: set<string>, ghost walked: seq<string>) returns (ghost gone': set<string>)
    requires db.Valid() && db.connected && t0.Valid()
    requires NoCase(fp) in t0.bijis && t0.bijis[NoCase(fp)].filepath == fp
    requires db.Snapshot() == WithoutRows(t0, gone) && gone == OrphansAmong(t0, fs.sidecars, walked)
    modifies db
    ensures db.Valid() && db.connected && db.fileExists
    ensures db.Snapshot() == WithoutRows(t0, gone') && gone' == OrphansAmong(t0, fs.sidecars, walked + [fp])
  {
    OrphansAmongStep(t0, fs.sidecars, walked, fp);
    gone' := gone;
    var has := fs.SidecarExists(SidecarPath(fp));
    if !has {
      DeleteStep(t0, gone, fp);
      db.DeleteBiji(fp);
      gone' := gone + {NoCase(fp)};
    }
  }

  /** all_biji_in_db. */
  method AllBijiInDb(db: BijiDatabase) returns (result: set<string>)
    requires db.Valid() && db.connected
    ensures result == db.Snapshot().Filepaths()
  {
    var rows := db.GetAllFilepaths();
    result := {};
    var i := 0;
    while i < |rows|
      invariant i <= |rows|
      invariant forall f :: f in result <==> f in rows[..i]
    {
      result := result + {rows[i]};
      assert rows[..i + 1] == rows[..i] + [rows[i]];
      i := i + 1;
    }
    assert rows[..i] == rows;
  }
}
