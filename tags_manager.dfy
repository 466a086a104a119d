/** The tag manager's edits: renaming a tag and deleting tags, each carried
    into the sidecars of the files linked to the tag and into the index. */
module TagsManager {
  import opened Basics
  import opened Storage
  import opened Database
  import opened BijiRecord

  /** The tags delete_or_edit_tag puts in place of the old one: none for a
      delete (`added` is ''), the new name for an edit. */
  function Replacement(added: string): (r: set<string>)
    ensures added == "" <==> r == {}
    ensures r <= {added}
  {
    if added == "" then {} else {added}
  }

  /** delete_or_edit_tag for one file: from_file, the tags setter with
      generate_new_tags(tags, {deleted}, added), write_file and
      update_biji_mtime. */
  function RelabelOne(w: World, file: string, deleted: string, added: set<string>, env: Env): Outcome<World>
  {
    match Load(w.files, w.sidecars, file, env)
    case Err(e) => Outcome(w, Some(e))
    case Ok(l) =>
      var b := WithTags(l.0, NewTags(l.0.tags, {deleted}, added), env.now);
      var sidecars := l.1[SidecarPath(file) := AsDict(b)];
      match w.db.UpdateMTime(file, b.bijiMTime)
      case Err(e) => Outcome(World(w.files, sidecars, w.db), Some(e))
      case Ok(t) => Outcome(World(w.files, sidecars, t), None)
  }

  /** delete_or_edit_tag's loop over the files, in iteration order; an
      exception stops it. */
  function RelabelAll(w: World, files: seq<string>, deleted: string, added: set<string>, env: Env): Outcome<World>
    decreases |files|
  {
    if files == [] then Outcome(w, None)
    else
      var o := RelabelOne(w, files[0], deleted, added, env);
      if o.error.Some? then o else RelabelAll(o.state, files[1..], deleted, added, env)
  }

  /** Rows that changed at most in their bijiMTime, and only to `now`: no
      row appears or goes. */
  ghost predicate RowsOnlyMTimes(t: Tables, u: Tables, now: IsoTime)
  {
    && u.bijis.Keys == t.bijis.Keys
    && (forall k :: k in t.bijis ==>
          && u.bijis[k] == t.bijis[k].(bijiMTime := u.bijis[k].bijiMTime)
          && (u.bijis[k].bijiMTime == t.bijis[k].bijiMTime || u.bijis[k].bijiMTime == now))
  }

  /** The index after relabelling: the same tags, links and rows, each row
      changed at most in its bijiMTime, and only to `now`. */
  ghost predicate OnlyMTimes(t: Tables, u: Tables, now: IsoTime)
  {
    u.tags == t.tags && u.links == t.links && RowsOnlyMTimes(t, u, now)
  }

  lemma RowsOnlyMTimesTrans(t: Tables, u: Tables, v: Tables, now: IsoTime)
    requires RowsOnlyMTimes(t, u, now) && RowsOnlyMTimes(u, v, now)
    ensures RowsOnlyMTimes(t, v, now)
  {
  }

  lemma OnlyMTimesTrans(t: Tables, u: Tables, v: Tables, now: IsoTime)
    requires OnlyMTimes(t, u, now) && OnlyMTimes(u, v, now)
    ensures OnlyMTimes(t, v, now)
  {
  }

  /** The sidecars after relabelling the files linked to `deleted` in `t`:
      theirs lost `deleted` and gained `added`, every other file's kept its
      tags. */
  ghost predicate Relabelled(before: map<string, Dict>, after: map<string, Dict>, t: Tables,
                             deleted: string, added: set<string>)
  {
    forall f :: FileTags(after, f) ==
      if f in t.FilesOf(deleted) then NewTags(FileTags(before, f), {deleted}, added) else FileTags(before, f)
  }

  /** The bijiMTime a file's sidecar stores, if it has a sidecar with one. */
  function StoredMTime(sidecars: map<string, Dict>, file: string): Option<JsonValue>
  {
    var sp := SidecarPath(file);
    if sp in sidecars && "bijiMTime" in sidecars[sp] then Some(sidecars[sp]["bijiMTime"]) else None
  }

  /** One file, in the index: only the file's row changes, and only its
      bijiMTime, to now; update_biji_mtime cannot fail, as now is never
      empty. */
  lemma RelabelOneIndex(w: World, file: string, deleted: string, added: set<string>, env: Env)
    requires w.db.Valid()
    ensures var o := RelabelOne(w, file, deleted, added, env);
      && o.state.files == w.files && o.state.db.Valid() && OnlyMTimes(w.db, o.state.db, env.now)
      && (o.error == None && NoCase(file) in w.db.bijis ==> o.state.db.MTime(file) == env.now)
  {
    if Load(w.files, w.sidecars, file, env).Ok? {
      StampSpec(w.db, file, env.now);
    }
  }

  /** update_biji_mtime(file, now): always accepted, it touches at most the
      file's row, and that row then has bijiMTime now. */
  lemma StampSpec(t: Tables, file: string, now: IsoTime)
    requires t.Valid()
    ensures t.UpdateMTime(file, now).Ok?
    ensures var u := t.UpdateMTime(file, now).value;
      && u.Valid() && OnlyMTimes(t, u, now) && (NoCase(file) in t.bijis ==> u.MTime(file) == now)
  {
  }

  /** One file, in the sidecars: it fails exactly when the file or its
      sidecar is missing, and then changes nothing; otherwise its sidecar's
      tags lose `deleted` and gain `added`, and no other sidecar's tags
      change. */
  lemma RelabelOneSidecars(w: World, file: string, deleted: string, added: set<string>, env: Env)
    ensures var o := RelabelOne(w, file, deleted, added, env);
      && o.state.sidecars.Keys == w.sidecars.Keys
      && (o.error == None <==> file in w.files && SidecarPath(file) in w.sidecars)
      && (o.error != None ==> o.state == w)
      && (o.error == None ==>
            FileTags(o.state.sidecars, file) == NewTags(FileTags(w.sidecars, file), {deleted}, added))
      && (forall g :: g != file ==> FileTags(o.state.sidecars, g) == FileTags(w.sidecars, g))
  {
    RelabelOneFails(w, file, deleted, added, env);
    if file in w.files && SidecarPath(file) in w.sidecars {
      RelabelOneTags(w, file, deleted, added, env);
    }
  }

  /** One file, in the stored bijiMTimes: a pass that gets through writes
      a sidecar whose bijiMTime is now (the tags setter's stamp), and no
      other sidecar changes at all, so no other file's stored bijiMTime
      does either (StoredMTimeOutside). */
  lemma RelabelOneStamps(w: World, file: string, deleted: string, added: set<string>, env: Env)
    ensures var o := RelabelOne(w, file, deleted, added, env);
      && (o.error == None ==> StoredMTime(o.state.sidecars, file) == Some(JStr(env.now)))
      && SameOutside(o.state.sidecars, w.sidecars, SidecarPath(file))
  {
    var sp := SidecarPath(file);
    RelabelOneFails(w, file, deleted, added, env);
    var r := Load(w.files, w.sidecars, file, env);
    if r.Ok? {
      var l := r.value;
      var b := WithTags(l.0, NewTags(l.0.tags, {deleted}, added), env.now);
      var sidecars := l.1[sp := AsDict(b)];
      assert RelabelOne(w, file, deleted, added, env).state.sidecars == sidecars;
      StoredMTimeAsDict(b);
      LoadSpec(w.files, w.sidecars, file, env);
    }
  }

  /** write_file stores the record's bijiMTime under "bijiMTime". */
  lemma StoredMTimeAsDict(b: Record)
    ensures "bijiMTime" in AsDict(b) && AsDict(b)["bijiMTime"] == JStr(b.bijiMTime)
  {
    DictLookup(b, BijiMTimeKey);
  }

  lemma StoredMTimeOutside(a: map<string, Dict>, b: map<string, Dict>, sp: string, g: string)
    requires SameOutside(a, b, sp) && SidecarPath(g) != sp
    ensures StoredMTime(a, g) == StoredMTime(b, g)
  {
  }

  /** When a pass fails, and that it keeps the set of sidecars. */
  lemma RelabelOneFails(w: World, file: string, deleted: string, added: set<string>, env: Env)
    ensures var o := RelabelOne(w, file, deleted, added, env);
      && o.state.sidecars.Keys == w.sidecars.Keys
      && (o.error == None <==> file in w.files && SidecarPath(file) in w.sidecars)
      && (o.error != None ==> o.state == w)
  {
    LoadSpec(w.files, w.sidecars, file, env);
    if SidecarPath(file) in w.sidecars && file in w.files {
      LoadedFromSidecar(w.files, w.sidecars, file, env);
    }
  }

  /** What a pass that gets through does to the tags of each sidecar. */
  lemma RelabelOneTags(w: World, file: string, deleted: string, added: set<string>, env: Env)
    requires file in w.files && SidecarPath(file) in w.sidecars
    ensures var o := RelabelOne(w, file, deleted, added, env);
      && FileTags(o.state.sidecars, file) == NewTags(FileTags(w.sidecars, file), {deleted}, added)
      && (forall g :: g != file ==> FileTags(o.state.sidecars, g) == FileTags(w.sidecars, g))
  {
    var sp := SidecarPath(file);
    LoadSpec(w.files, w.sidecars, file, env);
    LoadedFromSidecar(w.files, w.sidecars, file, env);
    var l := Load(w.files, w.sidecars, file, env).value;
    var b := WithTags(l.0, NewTags(l.0.tags, {deleted}, added), env.now);
    var sidecars := l.1[sp := AsDict(b)];
    StoredTagsAsDict(b);
    assert SameOutside(sidecars, w.sidecars, sp);
    forall g | g != file
      ensures FileTags(sidecars, g) == FileTags(w.sidecars, g)
    {
      SidecarPathInjective(g, file);
      FileTagsOutside(sidecars, w.sidecars, sp, g);
    }
  }

  /** The loop over the files, in the index: the tags, the links and the
      rows stay, a row changing at most in its bijiMTime, to now; when
      nothing failed, every listed file that has a row has bijiMTime now. */
  lemma {:induction false} RelabelAllIndex(w: World, files: seq<string>, deleted: string, added: set<string>, env: Env)
    requires w.db.Valid()
    ensures var o := RelabelAll(w, files, deleted, added, env);
      && o.state.files == w.files && o.state.db.Valid() && OnlyMTimes(w.db, o.state.db, env.now)
      && (o.error == None ==> forall f :: f in files && NoCase(f) in w.db.bijis ==> o.state.db.MTime(f) == env.now)
    decreases |files|
  {
    if files != [] {
      var x := files[0];
      RelabelOneIndex(w, x, deleted, added, env);
      var s := RelabelOne(w, x, deleted, added, env);
      if s.error == None {
        RelabelAllIndex(s.state, files[1..], deleted, added, env);
        OnlyMTimesTrans(w.db, s.state.db, RelabelAll(s.state, files[1..], deleted, added, env).state.db, env.now);
        assert forall f :: f in files <==> f == x || f in files[1..];
      }
    }
  }

  /** The loop over the files, in the sidecars: no sidecar appears or goes,
      and a file that is not listed keeps its sidecar's tags and stored
      bijiMTime. Nothing fails while every listed file exists with its
      sidecar, and when nothing failed every listed file's sidecar tags lost
      `deleted` and gained `added` (once, however often the file is
      listed), and its sidecar stores bijiMTime now. */
  lemma {:induction false} RelabelAllSidecars(w: World, files: seq<string>, deleted: string, added: set<string>, env: Env)
    ensures var o := RelabelAll(w, files, deleted, added, env);
      && o.state.files == w.files && o.state.sidecars.Keys == w.sidecars.Keys
      && (forall g :: g !in files ==> FileTags(o.state.sidecars, g) == FileTags(w.sidecars, g))
      && ((forall f :: f in files ==> f in w.files && SidecarPath(f) in w.sidecars) ==> o.error == None)
      && (o.error == None ==> forall f :: f in files ==>
            FileTags(o.state.sidecars, f) == NewTags(FileTags(w.sidecars, f), {deleted}, added))
      && (forall g :: g !in files ==> StoredMTime(o.state.sidecars, g) == StoredMTime(w.sidecars, g))
      && (o.error == None ==> forall f :: f in files ==> StoredMTime(o.state.sidecars, f) == Some(JStr(env.now)))
    decreases |files|
  {
    if files != [] {
      var x := files[0];
      RelabelOneSidecars(w, x, deleted, added, env);
      RelabelOneStamps(w, x, deleted, added, env);
      var s := RelabelOne(w, x, deleted, added, env);
      forall g | g != x
        ensures StoredMTime(s.state.sidecars, g) == StoredMTime(w.sidecars, g)
      {
        SidecarPathInjective(g, x);
        StoredMTimeOutside(s.state.sidecars, w.sidecars, SidecarPath(x), g);
      }
      if s.error == None {
        RelabelAllSidecars(s.state, files[1..], deleted, added, env);
        assert forall f :: f in files <==> f == x || f in files[1..];
        NewTagsIdempotent(FileTags(w.sidecars, x), {deleted}, added);
      } else {
        assert s.state.files == w.files;
      }
    }
  }

  /** From the index `t` and the sidecars `s` to the index `u` and the
      sidecars `s1`: every file linked to `deleted` in `t` carries bijiMTime
      `now` in its sidecar, and in its row when it has one; every other
      file's sidecar keeps its stored bijiMTime. */
  ghost predicate Stamped(t: Tables, s: map<string, Dict>, u: Tables, s1: map<string, Dict>, deleted: string, now: IsoTime)
  {
    && (forall f :: StoredMTime(s1, f) == if f in t.FilesOf(deleted) then Some(JStr(now)) else StoredMTime(s, f))
    && (forall f :: f in t.FilesOf(deleted) && NoCase(f) in t.bijis ==> u.MTime(f) == now)
  }

  /** Over the files linked to the tag, in any order: the sidecars are
      relabelled, every linked file is stamped with now, and the index
      changes only in bijiMTimes. */
  lemma RelabelLinked(w: World, files: seq<string>, deleted: string, added: set<string>, env: Env)
    requires w.db.Valid() && Enumerates(files, w.db.FilesOf(deleted))
    ensures var o := RelabelAll(w, files, deleted, added, env);
      && o.state.files == w.files && o.state.db.Valid() && OnlyMTimes(w.db, o.state.db, env.now)
      && (o.error == None ==> Relabelled(w.sidecars, o.state.sidecars, w.db, deleted, added))
      && (o.error == None ==> Stamped(w.db, w.sidecars, o.state.db, o.state.sidecars, deleted, env.now))
  {
    RelabelAllIndex(w, files, deleted, added, env);
    RelabelAllSidecars(w, files, deleted, added, env);
  }

  /** Of the files linked to a tag, the one sidecar change delete_tags
      makes to the file `f`: the tags among `tags` whose links named f. */
  function Dropped(t: Tables, tags: seq<string>, f: string): set<string>
  {
    set x | x in tags && f in t.FilesOf(x)
  }

  lemma DroppedStep(t: Tables, tags: seq<string>, x: string, f: string)
    ensures Dropped(t, tags + [x], f) == Dropped(t, tags, f) + (if f in t.FilesOf(x) then {x} else {})
  {
    assert forall y :: y in tags + [x] <==> y in tags || y == x;
  }

  /** Links that agree on every tag but one give the same files for every
      other tag. */
  lemma FilesOfOutside(t: Tables, u: Tables, tag: string)
    requires t.Valid() && u.Valid()
    requires forall l: Link :: l.tag != tag ==> Get(u.links, l) == Get(t.links, l)
    ensures forall y :: y != tag ==> u.FilesOf(y) == t.FilesOf(y)
  {
    forall y, f | y != tag
      ensures f in u.FilesOf(y) <==> f in t.FilesOf(y)
    {
      assert Get(u.links, Link(y, f)) == Get(t.links, Link(y, f));
      if f in u.FilesOf(y) {
        assert Link(y, f) in u.links;
      }
      if f in t.FilesOf(y) {
        assert Link(y, f) in t.links;
      }
    }
  }

  /** delete_or_edit_tag: ValueError for an empty `deleted`; otherwise the
      files get_bijis(deleted) returns, in its set's iteration order. */
  method DeleteOrEditTag(fs: FileSystem, db: BijiDatabase, deleted: string, added: string, env: Env)
    returns (err: Option<Error>)
    requires fs.Valid() && db.Valid() && db.connected
    modifies fs, db
    ensures fs.Valid() && db.Valid() && db.connected && fs.files == old(fs.files)
    ensures deleted == "" ==> err == Some(InvalidValue) && unchanged(fs) && db.Snapshot() == old(db.Snapshot())
    ensures deleted != "" ==> exists files ::
      && Enumerates(files, old(db.Snapshot()).FilesOf(deleted))
      && Outcome(WorldOf(fs, db), err) == RelabelAll(old(WorldOf(fs, db)), files, deleted, Replacement(added), env)
    ensures OnlyMTimes(old(db.Snapshot()), db.Snapshot(), env.now)
    ensures deleted != "" && err == None ==>
      Relabelled(old(fs.sidecars), fs.sidecars, old(db.Snapshot()), deleted, Replacement(added))
    ensures deleted != "" && err == None ==>
      Stamped(old(db.Snapshot()), old(fs.sidecars), db.Snapshot(), fs.sidecars, deleted, env.now)
  {
    if deleted == "" {
      return Some(InvalidValue);
    }
    var replacement := if added != "" then {added} else {};
    var linked := db.GetBijis(deleted);
    assert linked == old(db.Snapshot()).FilesOf(deleted) by {
      forall f | f in old(db.Snapshot()).FilesOf(deleted)
        ensures f in linked
      {
        var l :| l in db.links && l.tag == deleted && l.filepath == f;
      }
    }
    var files := Elements(linked);
    ghost var w0 := WorldOf(fs, db);
    err := None;
    var i := 0;
    while i < |files| && err == None
      invariant i <= |files|
      invariant fs.Valid() && db.Valid() && db.connected && fs.files == old(fs.files)
      invariant err == None ==> RelabelAll(w0, files, deleted, replacement, env)
                                == RelabelAll(WorldOf(fs, db), files[i..], deleted, replacement, env)
      invariant err != None ==> RelabelAll(w0, files, deleted, replacement, env) == Outcome(WorldOf(fs, db), err)
    {
      assert files[i..][1..] == files[i + 1..];
      err := RelabelFile(fs, db, files[i], deleted, replacement, env);
      i := i + 1;
    }
    RelabelLinked(w0, files, deleted, replacement, env);
  }

  /** The body of delete_or_edit_tag's loop. */
  method RelabelFile(fs: FileSystem, db: BijiDatabase, file: string, deleted: string, added: set<string>, env: Env)
    returns (err: Option<Error>)
    requires fs.Valid() && db.Valid() && db.connected
    modifies fs, db
    ensures fs.Valid() && db.Valid() && db.connected && fs.files == old(fs.files)
    ensures Outcome(WorldOf(fs, db), err) == RelabelOne(old(WorldOf(fs, db)), file, deleted, added, env)
  {
    LoadSpec(fs.files, fs.sidecars, file, env);
    var r := Biji.FromFile(fs, db, file, env);
    if r.Err? {
      return Some(r.error);
    }
    var biji := r.value;
    biji.SetTags(NewTags(biji.tags, {deleted}, added), env.now);
    biji.WriteFile(fs);
    var ok := db.UpdateBijiMTime(file, biji.bijiMTime);
    err := if ok then None else Some(Integrity);
  }

  /** The state after dropping `tag`: the tag is gone with its links, no
      tag appears, every other tag keeps its usedAt and its files, the rows
      change at most in bijiMTime, to `now`, and exactly the files that were
      linked to the tag lost it from their sidecars and carry bijiMTime
      `now` there, and in their rows when they have one. */
  ghost predicate TagDropped(t: Tables, s: map<string, Dict>, u: Tables, s1: map<string, Dict>, tag: string, now: IsoTime)
  {
    && (forall y :: y in u.tags <==> y != tag && y in t.tags)
    && (forall y :: y in u.tags ==> u.tags[y] == t.tags[y])
    && (forall y :: u.FilesOf(y) == if y == tag then {} else t.FilesOf(y))
    && RowsOnlyMTimes(t, u, now)
    && (forall f :: FileTags(s1, f) == FileTags(s, f) - (if f in t.FilesOf(tag) then {tag} else {}))
    && Stamped(t, s, u, s1, tag, now)
  }

  /** The state after dropping each tag of `tags` in turn, from the index
      `t` and the sidecars `s`; a file is stamped once it was linked to one
      of them. */
  ghost predicate AllDropped(t: Tables, s: map<string, Dict>, u: Tables, s1: map<string, Dict>, tags: seq<string>, now: IsoTime)
  {
    && (forall y :: y in u.tags <==> y !in tags && y in t.tags)
    && (forall y :: y in u.tags ==> u.tags[y] == t.tags[y])
    && (forall y :: u.FilesOf(y) == if y in tags then {} else t.FilesOf(y))
    && RowsOnlyMTimes(t, u, now)
    && (forall f :: FileTags(s1, f) == FileTags(s, f) - Dropped(t, tags, f))
    && (forall f :: StoredMTime(s1, f) == if Dropped(t, tags, f) != {} then Some(JStr(now)) else StoredMTime(s, f))
    && (forall f :: Dropped(t, tags, f) != {} && NoCase(f) in t.bijis ==> u.MTime(f) == now)
  }

  lemma NoneDropped(t: Tables, s: map<string, Dict>, now: IsoTime)
    ensures AllDropped(t, s, t, s, [], now)
  {
  }

  lemma AllDroppedStep(t0: Tables, s0: map<string, Dict>, t: Tables, s: map<string, Dict>,
                       u: Tables, s1: map<string, Dict>, tags: seq<string>, tag: string, now: IsoTime)
    requires AllDropped(t0, s0, t, s, tags, now) && TagDropped(t, s, u, s1, tag, now)
    ensures AllDropped(t0, s0, u, s1, tags + [tag], now)
  {
    DroppedTagsStep(t0, t, u, tags, tag);
    DroppedLinksStep(t0, t, u, tags, tag);
    DroppedSidecarsStep(t0, s0, t, s, s1, tags, tag);
    RowsOnlyMTimesTrans(t0, t, u, now);
    DroppedStampsStep(t0, s0, t, s, u, s1, tags, tag, now);
  }

  /** The stamps across one more dropped tag: a file is stamped once it was
      linked to an earlier tag or to this one, and a stamped row stays
      stamped. */
  lemma DroppedStampsStep(t0: Tables, s0: map<string, Dict>, t: Tables, s: map<string, Dict>,
                          u: Tables, s1: map<string, Dict>, tags: seq<string>, tag: string, now: IsoTime)
    requires forall y :: t.FilesOf(y) == if y in tags then {} else t0.FilesOf(y)
    requires RowsOnlyMTimes(t0, t, now) && RowsOnlyMTimes(t, u, now)
    requires forall f :: StoredMTime(s, f) == if Dropped(t0, tags, f) != {} then Some(JStr(now)) else StoredMTime(s0, f)
    requires forall f :: Dropped(t0, tags, f) != {} && NoCase(f) in t0.bijis ==> t.MTime(f) == now
    requires Stamped(t, s, u, s1, tag, now)
    ensures forall f :: StoredMTime(s1, f) == if Dropped(t0, tags + [tag], f) != {} then Some(JStr(now)) else StoredMTime(s0, f)
    ensures forall f :: Dropped(t0, tags + [tag], f) != {} && NoCase(f) in t0.bijis ==> u.MTime(f) == now
  {
    assert t.FilesOf(tag) == if tag in tags then {} else t0.FilesOf(tag);
    forall f
      ensures Dropped(t0, tags + [tag], f) != {} <==> Dropped(t0, tags, f) != {} || f in t.FilesOf(tag)
    {
      DroppedStep(t0, tags, tag, f);
      if tag in tags && f in t0.FilesOf(tag) {
        assert tag in Dropped(t0, tags, f);
      }
    }
  }

  lemma DroppedTagsStep(t0: Tables, t: Tables, u: Tables, tags: seq<string>, tag: string)
    requires forall y :: y in t.tags <==> y !in tags && y in t0.tags
    requires forall y :: y in u.tags <==> y != tag && y in t.tags
    ensures forall y :: y in u.tags <==> y !in tags + [tag] && y in t0.tags
  {
    forall y
      ensures y in u.tags <==> y !in tags + [tag] && y in t0.tags
    {
      assert y in tags + [tag] <==> y in tags || y == tag;
    }
  }

  lemma DroppedLinksStep(t0: Tables, t: Tables, u: Tables, tags: seq<string>, tag: string)
    requires forall y :: t.FilesOf(y) == if y in tags then {} else t0.FilesOf(y)
    requires forall y :: u.FilesOf(y) == if y == tag then {} else t.FilesOf(y)
    ensures forall y :: u.FilesOf(y) == if y in tags + [tag] then {} else t0.FilesOf(y)
  {
    forall y
      ensures u.FilesOf(y) == if y in tags + [tag] then {} else t0.FilesOf(y)
    {
      assert y in tags + [tag] <==> y in tags || y == tag;
    }
  }

  lemma DroppedSidecarsStep(t0: Tables, s0: map<string, Dict>, t: Tables, s: map<string, Dict>, s1: map<string, Dict>,
                            tags: seq<string>, tag: string)
    requires forall y :: t.FilesOf(y) == if y in tags then {} else t0.FilesOf(y)
    requires forall f :: FileTags(s, f) == FileTags(s0, f) - Dropped(t0, tags, f)
    requires forall f :: FileTags(s1, f) == FileTags(s, f) - (if f in t.FilesOf(tag) then {tag} else {})
    ensures forall f :: FileTags(s1, f) == FileTags(s0, f) - Dropped(t0, tags + [tag], f)
  {
    assert t.FilesOf(tag) == if tag in tags then {} else t0.FilesOf(tag);
    forall f
      ensures FileTags(s1, f) == FileTags(s0, f) - Dropped(t0, tags + [tag], f)
    {
      DroppedStep(t0, tags, tag, f);
      DropOne(FileTags(s0, f), FileTags(s, f), FileTags(s1, f), Dropped(t0, tags, f), Dropped(t0, tags + [tag], f),
              tag, f in t.FilesOf(tag), f in t0.FilesOf(tag));
    }
  }

  /** One file's tags across that step, on plain sets: `a` at the start,
      `b` after the earlier tags, `c` after `tag`, which the sidecar loses
      when `inT` says the file was still linked to it. */
  lemma DropOne(a: set<string>, b: set<string>, c: set<string>, d: set<string>, e: set<string>,
                tag: string, inT: bool, inT0: bool)
    requires b == a - d && c == b - (if inT then {tag} else {})
    requires e == d + (if inT0 then {tag} else {})
    requires inT ==> inT0
    requires inT0 && !inT ==> tag in d
    ensures c == a - e
  {
  }

  /** delete_or_edit_tag(tag, '') followed by delete_tag drops the tag. */
  lemma DroppedTag(t0: Tables, s0: map<string, Dict>, t1: Tables, s1: map<string, Dict>, tag: string, now: IsoTime)
    requires t0.Valid() && t1.Valid()
    requires OnlyMTimes(t0, t1, now) && Relabelled(s0, s1, t0, tag, {}) && Stamped(t0, s0, t1, s1, tag, now)
    ensures TagDropped(t0, s0, t1.DeleteTag(tag), s1, tag, now)
  {
    DroppedIndex(t0, t1, tag);
    DeleteTagCascades(t1, tag);
    DroppedSidecars(s0, s1, t0, tag);
  }

  /** The index half: the tag goes with its links and the rest stays. */
  lemma DroppedIndex(t0: Tables, t1: Tables, tag: string)
    requires t0.Valid() && t1.Valid() && t1.tags == t0.tags && t1.links == t0.links
    ensures var u := t1.DeleteTag(tag);
      && (forall y :: y in u.tags <==> y != tag && y in t0.tags)
      && (forall y :: u.FilesOf(y) == if y == tag then {} else t0.FilesOf(y))
  {
    DeleteTagCascades(t1, tag);
    FilesOfOutside(t1, t1.DeleteTag(tag), tag);
    forall y
      ensures t1.FilesOf(y) == t0.FilesOf(y)
    {
    }
  }

  /** The sidecar half: relabelling with no replacement removes the tag
      from exactly the files linked to it. */
  lemma DroppedSidecars(s0: map<string, Dict>, s1: map<string, Dict>, t0: Tables, tag: string)
    requires Relabelled(s0, s1, t0, tag, {})
    ensures forall f :: FileTags(s1, f) == FileTags(s0, f) - (if f in t0.FilesOf(tag) then {tag} else {})
  {
    forall f
      ensures FileTags(s1, f) == FileTags(s0, f) - (if f in t0.FilesOf(tag) then {tag} else {})
    {
      assert NewTags(FileTags(s0, f), {tag}, {}) == FileTags(s0, f) - {tag};
    }
  }

  /** delete_tags' loop for one checked tag: delete_or_edit_tag(tag, ''),
      then delete_tag. When it gets through, the tag is gone with its links,
      every other tag keeps its links, no tag appears, and exactly the files
      that were linked to the tag lost it from their sidecars. */
  method DropTag(fs: FileSystem, db: BijiDatabase, tag: string, env: Env) returns (err: Option<Error>)
    requires fs.Valid() && db.Valid() && db.connected
    modifies fs, db
    ensures fs.Valid() && db.Valid() && db.connected && fs.files == old(fs.files)
    ensures err == None ==> TagDropped(old(db.Snapshot()), old(fs.sidecars), db.Snapshot(), fs.sidecars, tag, env.now)
  {
    err := DeleteOrEditTag(fs, db, tag, "", env);
    if err.Some? {
      return;
    }
    ghost var t1 := db.Snapshot();
    db.DeleteTag(tag);
    DroppedTag(old(db.Snapshot()), old(fs.sidecars), t1, fs.sidecars, tag, env.now);
  }

  /** delete_tags: nothing when no tag is checked or the user declines;
      otherwise each checked tag in turn, until one fails. When all went
      through, the checked tags are gone with their links, the other tags
      keep theirs, and each file's sidecar lost exactly the checked tags
      that were linked to it. The tags are the Qt.UserRole data of the
      checked rows of the shown tag list. */
  method DeleteTags(fs: FileSystem, db: BijiDatabase, checked: seq<string>, confirmed: bool, env: Env)
    returns (err: Option<Error>)
    requires fs.Valid() && db.Valid() && db.connected
    modifies fs, db
    ensures fs.Valid() && db.Valid() && db.connected && fs.files == old(fs.files)
    ensures checked == [] || !confirmed ==>
      err == None && unchanged(fs) && db.Snapshot() == old(db.Snapshot())
    ensures confirmed && err == None ==>
      AllDropped(old(db.Snapshot()), old(fs.sidecars), db.Snapshot(), fs.sidecars, checked, env.now)
  {
    if checked == [] || !confirmed {
      return None;
    }
    err := DropAll(fs, db, checked, env);
  }

  /** delete_tags' loop over the checked tags. */
  method DropAll(fs: FileSystem, db: BijiDatabase, tags: seq<string>, env: Env) returns (err: Option<Error>)
    requires fs.Valid() && db.Valid() && db.connected
    modifies fs, db
    ensures fs.Valid() && db.Valid() && db.connected && fs.files == old(fs.files)
    ensures err == None ==> AllDropped(old(db.Snapshot()), old(fs.sidecars), db.Snapshot(), fs.sidecars, tags, env.now)
  {
    ghost var t0, sidecars0 := db.Snapshot(), fs.sidecars;
    NoneDropped(t0, sidecars0, env.now);
    err := None;
    ghost var done: seq<string> := [];
    var i := 0;
    while i < |tags|
      invariant i <= |tags| && done == tags[..i]
      invariant fs.Valid() && db.Valid() && db.connected && fs.files == old(fs.files)
      invariant AllDropped(t0, sidecars0, db.Snapshot(), fs.sidecars, done, env.now)
    {
      err := DropNext(fs, db, t0, sidecars0, done, tags[i], env);
      if err.Some? {
        return;
      }
      done := done + [tags[i]];
      i := i + 1;
    }
    assert done == tags;
  }

  /** One more pass of delete_tags' loop. */
  method DropNext(fs: FileSystem, db: BijiDatabase, ghost t0: Tables, ghost s0: map<string, Dict>,
                  ghost done: seq<string>, tag: string, env: Env) returns (err: Option<Error>)
    requires fs.Valid() && db.Valid() && db.connected
    requires AllDropped(t0, s0, db.Snapshot(), fs.sidecars, done, env.now)
    modifies fs, db
    ensures fs.Valid() && db.Valid() && db.connected && fs.files == old(fs.files)
    ensures err == None ==> AllDropped(t0, s0, db.Snapshot(), fs.sidecars, done + [tag], env.now)
  {
    ghost var t, sidecars := db.Snapshot(), fs.sidecars;
    err := DropTag(fs, db, tag, env);
    if err == None {
      AllDroppedStep(t0, s0, t, sidecars, db.Snapshot(), fs.sidecars, done, tag, env.now);
    }
  }

  /** edit_tag, given what the input dialog returned: the new name is the
      stripped text; an empty name, a cancelled dialog or a name the tags
      table already holds changes nothing. Otherwise the linked files'
      sidecars are relabelled and stamped, and the tag is renamed in the
      index, its links following by the cascade and its usedAt kept. Rows
      change at most in bijiMTime, to now, whatever happens. */
  method EditTag(fs: FileSystem, db: BijiDatabase, oldTag: string, input: string, ok: bool, env: Env)
    returns (err: Option<Error>)
    requires fs.Valid() && db.Valid() && db.connected
    modifies fs, db
    ensures fs.Valid() && db.Valid() && db.connected && fs.files == old(fs.files)
    ensures !ok || Strip(input) == "" || Strip(input) in old(db.Snapshot()).tags ==>
      err == None && unchanged(fs) && db.Snapshot() == old(db.Snapshot())
    ensures ok && Strip(input) != "" && Strip(input) !in old(db.Snapshot()).tags && oldTag == "" ==>
      err == Some(InvalidValue) && unchanged(fs) && db.Snapshot() == old(db.Snapshot())
    ensures ok && Strip(input) != "" && Strip(input) !in old(db.Snapshot()).tags && err == None ==>
      && Relabelled(old(fs.sidecars), fs.sidecars, old(db.Snapshot()), oldTag, {Strip(input)})
      && Stamped(old(db.Snapshot()), old(fs.sidecars), db.Snapshot(), fs.sidecars, oldTag, env.now)
      && (oldTag in old(db.Snapshot()).tags ==> Renamed(old(db.Snapshot()), db.Snapshot(), oldTag, Strip(input)))
    ensures RowsOnlyMTimes(old(db.Snapshot()), db.Snapshot(), env.now)
  {
    var tag := Strip(input);
    if !ok || tag == "" {
      return None;
    }
    var atime := db.GetTagATime(tag);
    if atime != "" {
      return None;
    }
    ghost var t0, s0 := db.Snapshot(), fs.sidecars;
    err := DeleteOrEditTag(fs, db, oldTag, tag, env);
    if err.Some? {
      return;
    }
    assert Relabelled(s0, fs.sidecars, t0, oldTag, {tag});
    if oldTag in t0.tags {
      RenameAfterRelabel(t0, db.Snapshot(), oldTag, tag, env.now);
    }
    var renamed := db.UpdateTag(oldTag, tag);
    if !renamed {
      err := Some(Integrity);
    }
  }

  /** Relabelling changed only bijiMTimes, so update_tag afterwards renames
      the tag as it would have in the index before. */
  lemma RenameAfterRelabel(t0: Tables, t1: Tables, oldTag: string, newTag: string, now: IsoTime)
    requires t1.Valid() && OnlyMTimes(t0, t1, now)
    requires oldTag in t0.tags && newTag !in t0.tags
    ensures t1.UpdateTag(oldTag, newTag).Ok?
    ensures Renamed(t0, t1.UpdateTag(oldTag, newTag).value, oldTag, newTag)
    ensures t1.UpdateTag(oldTag, newTag).value.bijis == t1.bijis
  {
    UpdateTagMovesLinks(t1, oldTag, newTag);
    assert forall x :: t1.FilesOf(x) == t0.FilesOf(x);
  }

  /** The index after renaming `oldTag` to `newTag`: the new name holds the
      old one's files and usedAt, the old name is gone, every other tag
      stays with its usedAt and its files. */
  ghost predicate Renamed(t: Tables, u: Tables, oldTag: string, newTag: string)
  {
    && oldTag in t.tags && oldTag !in u.tags && newTag in u.tags
    && u.tags[newTag] == t.tags[oldTag]
    && (forall x :: x != newTag ==> (x in u.tags <==> x != oldTag && x in t.tags))
    && (forall x :: x in u.tags && x != newTag ==> x in t.tags && u.tags[x] == t.tags[x])
    && u.FilesOf(newTag) == t.FilesOf(oldTag) && u.FilesOf(oldTag) == {}
    && (forall x :: x != oldTag && x != newTag ==> u.FilesOf(x) == t.FilesOf(x))
  }
}
