/** The SQLite index of bijibiji/bijidb/bijidatabase.py: the tables `bijis`,
    `tags` and `tag_biji`, the statements the class BijiDatabase runs on them,
    and the class itself.

    The engine is replaced by values: `bijis` is a map keyed by the NOCASE
    key of the filepath (the primary key is declared COLLATE NOCASE), `tags`
    a map from tag to usedAt, and `tag_biji`, which has no uniqueness
    constraint, a bag counting how many rows hold each (tag, filepath) pair.
    The column tag_biji.filepath has the default BINARY collation, so the
    statements that filter tag_biji by filepath compare exactly, while the
    foreign key looks up and cascades to its parent under NOCASE. */
module Database {
  import opened Basics

  /** A row of `bijis`. */
  datatype Row = Row(
    filepath: string,
    filename: string,
    suffix: string,
    mimetype: Option<string>,
    filesize: int,
    updatedAt: string,
    backupAt: string,
    bijiCTime: string,
    bijiMTime: string)

  /** A row of `tag_biji`. */
  datatype Link = Link(tag: string, filepath: string)

  function Get(bag: map<Link, nat>, l: Link): nat
  {
    if l in bag then bag[l] else 0
  }

  function GetCount(counts: map<string, nat>, t: string): nat
  {
    if t in counts then counts[t] else 0
  }

  /** Number of `tag_biji` rows naming `tag` among the pairs `keys`. */
  ghost function CountIn(bag: map<Link, nat>, keys: set<Link>, tag: string): nat
    decreases keys
  {
    if keys == {} then 0
    else
      var l :| l in keys;
      (if l.tag == tag then Get(bag, l) else 0) + CountIn(bag, keys - {l}, tag)
  }

  /** COUNT(*) of the `tag_biji` rows naming `tag`. */
  ghost function Count(bag: map<Link, nat>, tag: string): nat
  {
    CountIn(bag, bag.Keys, tag)
  }

  /** The sum does not depend on which pair is taken out first. */
  lemma {:induction false} CountInRemove(bag: map<Link, nat>, keys: set<Link>, x: Link, tag: string)
    requires x in keys
    ensures CountIn(bag, keys, tag) == (if x.tag == tag then Get(bag, x) else 0) + CountIn(bag, keys - {x}, tag)
    decreases keys
  {
    var l :| l in keys && CountIn(bag, keys, tag) == (if l.tag == tag then Get(bag, l) else 0) + CountIn(bag, keys - {l}, tag);
    if l != x {
      CountInRemove(bag, keys - {l}, x, tag);
      CountInRemove(bag, keys - {x}, l, tag);
      assert keys - {l} - {x} == keys - {x} - {l};
    }
  }

  /** With only positive multiplicities, a tag has count 0 exactly when no
      pair in `keys` names it. */
  lemma {:induction false} CountInZero(bag: map<Link, nat>, keys: set<Link>, tag: string)
    requires keys <= bag.Keys
    requires forall l :: l in bag ==> bag[l] > 0
    ensures CountIn(bag, keys, tag) == 0 <==> forall l :: l in keys ==> l.tag != tag
    decreases keys
  {
    if keys != {} {
      var l :| l in keys;
      CountInRemove(bag, keys, l, tag);
      CountInZero(bag, keys - {l}, tag);
    }
  }

  /** The three tables. */
  datatype Tables = Tables(bijis: map<string, Row>, tags: map<string, IsoTime>, links: map<Link, nat>)
  {
    /** The schema's constraints: the primary key of `bijis` is its NOCASE
        filepath, CHECK(bijiMTime <> '') holds (CHECK(usedAt <> '') is the
        type of `tags`), and every `tag_biji` row names an existing tag and an
        existing filepath (the foreign keys, with PRAGMA foreign_keys = ON). */
    predicate Valid()
    {
      && (forall k :: k in bijis ==> k == NoCase(bijis[k].filepath) && bijis[k].bijiMTime != "")
      && (forall l :: l in links ==> links[l] > 0 && l.tag in tags && NoCase(l.filepath) in bijis)
    }

    /** GET_MTIME: the bijiMTime of the row whose filepath matches under NOCASE. */
    function MTime(filepath: string): string
    {
      if NoCase(filepath) in bijis then bijis[NoCase(filepath)].bijiMTime else ""
    }

    /** GET_TAG_ATIME. */
    function TagATime(tag: string): string
    {
      if tag in tags then tags[tag] else ""
    }

    /** GET_TAGS: the tags linked to exactly this filepath. */
    function TagsOf(filepath: string): set<string>
    {
      set l | l in links && l.filepath == filepath :: l.tag
    }

    /** GET_BIJIS: the filepaths linked to this tag. */
    function FilesOf(tag: string): set<string>
    {
      set l | l in links && l.tag == tag :: l.filepath
    }

    /** GET_ALL_FILEPATHS, as a set. */
    function Filepaths(): set<string>
    {
      set k | k in bijis :: bijis[k].filepath
    }

    /** The tags GET_TAGS_NOT_USED returns: no `tag_biji` row names them. */
    predicate Unused(tag: string)
    {
      forall l :: l in links ==> l.tag != tag
    }

    /** INSERT_INTO_BIJIS: fails on a duplicate key or an empty bijiMTime. */
    function InsertBiji(r: Row): (u: Result<Tables>)
      ensures Valid() && u.Ok? ==> u.value.Valid()
    {
      NoCaseIdempotent(r.filepath);
      if NoCase(r.filepath) in bijis || r.bijiMTime == "" then Err(Integrity)
      else Ok(this.(bijis := bijis[NoCase(r.filepath) := r]))
    }

    /** UPDATE_BIJI: every column but filepath and filesize, of the row that
        matches; no row matches when the filepath is absent. */
    function UpdateBiji(r: Row): (u: Result<Tables>)
      ensures Valid() && u.Ok? ==> u.value.Valid()
    {
      var k := NoCase(r.filepath);
      if k !in bijis then Ok(this)
      else if r.bijiMTime == "" then Err(Integrity)
      else
        Ok(this.(bijis := bijis[k := bijis[k].(
          filename := r.filename, suffix := r.suffix, mimetype := r.mimetype,
          updatedAt := r.updatedAt, backupAt := r.backupAt,
          bijiCTime := r.bijiCTime, bijiMTime := r.bijiMTime)]))
    }

    /** UPDATE_BIJI_MTIME. */
    function UpdateMTime(filepath: string, mtime: string): (u: Result<Tables>)
      ensures Valid() && u.Ok? ==> u.value.Valid()
    {
      var k := NoCase(filepath);
      if k !in bijis then Ok(this)
      else if mtime == "" then Err(Integrity)
      else Ok(this.(bijis := bijis[k := bijis[k].(bijiMTime := mtime)]))
    }

    /** UPDATE_TAG_TIME. */
    function TouchTag(tag: string, now: IsoTime): (u: Tables)
      ensures Valid() ==> u.Valid()
    {
      if tag in tags then this.(tags := tags[tag := now]) else this
    }

    /** unlink_tag: UNLINK_TAG deletes every row holding the pair, then the
        tag's usedAt is set to now. */
    function Unlink(tag: string, filepath: string, now: IsoTime): (u: Tables)
      ensures Valid() ==> u.Valid()
    {
      this.(links := links - {Link(tag, filepath)}).TouchTag(tag, now)
    }

    /** insert_to_tag_biji: INSERT_INTO_TAG_BIJI, which the foreign keys
        reject when the tag or the filepath has no parent row, then the tag's
        usedAt is set to now. */
    function AddLink(tag: string, filepath: string, now: IsoTime): (u: Result<Tables>)
      ensures Valid() && u.Ok? ==> u.value.Valid()
    {
      if tag !in tags || NoCase(filepath) !in bijis then Err(Integrity)
      else
        var l := Link(tag, filepath);
        Ok(this.(links := links[l := Get(links, l) + 1]).TouchTag(tag, now))
    }

    /** insert_to_tags: every tag of `ts` that has no row gets one, all
        stamped with the same usedAt. */
    function InsertTags(ts: set<string>, now: IsoTime): (u: Tables)
      ensures Valid() ==> u.Valid()
    {
      this.(tags := tags + map t | t in ts && t !in tags :: now)
    }

    /** DELETE_BIJI, with ON DELETE CASCADE on tag_biji.filepath. */
    function DeleteBiji(filepath: string): (u: Tables)
      ensures Valid() ==> u.Valid()
    {
      var k := NoCase(filepath);
      if k !in bijis then this
      else this.(bijis := bijis - {k}, links := map l | l in links && NoCase(l.filepath) != k :: links[l])
    }

    /** DELETE_TAG, with ON DELETE CASCADE on tag_biji.tag. */
    function DeleteTag(tag: string): (u: Tables)
      ensures Valid() ==> u.Valid()
    {
      if tag !in tags then this
      else this.(tags := tags - {tag}, links := map l | l in links && l.tag != tag :: links[l])
    }

    /** UPDATE_TAG, with ON UPDATE CASCADE on tag_biji.tag; renaming onto
        another existing tag violates the primary key. */
    function UpdateTag(oldTag: string, newTag: string): (u: Result<Tables>)
      ensures Valid() && u.Ok? ==> u.value.Valid()
    {
      if oldTag !in tags then Ok(this)
      else if newTag != oldTag && newTag in tags then Err(Integrity)
      else
        var v := this.(tags := (tags - {oldTag})[newTag := tags[oldTag]],
                       links := Renamed(links, oldTag, newTag));
        RenamedKeepsParents(this, v, oldTag, newTag);
        Ok(v)
    }
  }

  function Rename(l: Link, oldTag: string, newTag: string): Link
  {
    if l.tag == oldTag then Link(newTag, l.filepath) else l
  }

  /** The bag after every row naming `oldTag` names `newTag` instead. */
  function Renamed(bag: map<Link, nat>, oldTag: string, newTag: string): map<Link, nat>
  {
    var keys := set l | l in bag :: Rename(l, oldTag, newTag);
    map k | k in keys ::
      (if k.tag != oldTag then Get(bag, k) else 0)
      + (if k.tag == newTag then Get(bag, Link(oldTag, k.filepath)) else 0)
  }

  const Empty := Tables(map[], map[], map[])

  // ---------------------------------------------------------------------
  // Properties of the statements

  /** get_mtime and get_tag_atime return '' exactly when there is no row: a
      stored bijiMTime or usedAt is never ''. */
  lemma EmptyMeansAbsent(t: Tables, filepath: string, tag: string)
    requires t.Valid()
    ensures t.MTime(filepath) == "" <==> NoCase(filepath) !in t.bijis
    ensures t.TagATime(tag) == "" <==> tag !in t.tags
  {
  }

  /** insert_to_tags adds exactly the missing tags, all stamped `now`, and
      leaves the usedAt of the tags already present alone. */
  lemma InsertTagsSpec(t: Tables, ts: set<string>, now: IsoTime)
    ensures var u := t.InsertTags(ts, now);
      && u.tags.Keys == t.tags.Keys + ts
      && (forall x :: x in t.tags ==> u.tags[x] == t.tags[x])
      && (forall x :: x in ts && x !in t.tags ==> u.tags[x] == now)
      && u.bijis == t.bijis && u.links == t.links
  {
  }

  /** After UPDATE_TAG every link still has its parents. */
  lemma RenamedKeepsParents(t: Tables, u: Tables, oldTag: string, newTag: string)
    requires oldTag in t.tags
    requires u == t.(tags := (t.tags - {oldTag})[newTag := t.tags[oldTag]],
                     links := Renamed(t.links, oldTag, newTag))
    ensures t.Valid() ==> u.Valid()
  {
    if !t.Valid() {
      return;
    }
    forall l | l in u.links
      ensures u.links[l] > 0 && l.tag in u.tags && NoCase(l.filepath) in u.bijis
    {
      var l0 :| l0 in t.links && Rename(l0, oldTag, newTag) == l;
      RenamedPositive(t.links, oldTag, newTag, l0);
    }
  }

  lemma RenamedPositive(bag: map<Link, nat>, oldTag: string, newTag: string, l0: Link)
    requires l0 in bag && bag[l0] > 0
    ensures var r := Renamed(bag, oldTag, newTag);
      Rename(l0, oldTag, newTag) in r && r[Rename(l0, oldTag, newTag)] > 0
  {
  }

  /** How renaming changes the bag: a pair naming neither tag keeps its
      count, the old tag disappears and the new one gathers both counts. */
  lemma RenamedSpec(bag: map<Link, nat>, oldTag: string, newTag: string)
    requires forall l :: l in bag ==> bag[l] > 0
    ensures var r := Renamed(bag, oldTag, newTag);
      && (forall l: Link :: l.tag != oldTag && l.tag != newTag ==> Get(r, l) == Get(bag, l))
      && (oldTag != newTag ==> forall f :: Get(r, Link(oldTag, f)) == 0)
      && (forall f :: Get(r, Link(newTag, f)) == Get(bag, Link(newTag, f)) + (if oldTag != newTag then Get(bag, Link(oldTag, f)) else 0))
      && (forall l :: l in r ==> r[l] > 0)
  {
    var r := Renamed(bag, oldTag, newTag);
    forall l: Link | l.tag != oldTag && l.tag != newTag
      ensures Get(r, l) == Get(bag, l)
    {
      if l in bag {
        assert Rename(l, oldTag, newTag) == l;
      }
    }
    forall f
      ensures Get(r, Link(newTag, f)) == Get(bag, Link(newTag, f)) + (if oldTag != newTag then Get(bag, Link(oldTag, f)) else 0)
    {
      var n := Link(newTag, f);
      var o := Link(oldTag, f);
      if n in bag {
        assert Rename(n, oldTag, newTag) == n;
      }
      if o in bag {
        assert Rename(o, oldTag, newTag) == n;
      }
    }
    forall l | l in r
      ensures r[l] > 0
    {
      var l0 :| l0 in bag && Rename(l0, oldTag, newTag) == l;
    }
  }

  /** delete_biji removes the row and, by the cascade, every link naming its
      filepath under NOCASE; every other row and link is untouched. */
  lemma DeleteBijiCascades(t: Tables, filepath: string)
    requires t.Valid()
    ensures var u := t.DeleteBiji(filepath);
      && NoCase(filepath) !in u.bijis
      && (forall k :: k != NoCase(filepath) && k in t.bijis ==> k in u.bijis && u.bijis[k] == t.bijis[k])
      && (forall l: Link :: NoCase(l.filepath) == NoCase(filepath) ==> l !in u.links)
      && (forall l: Link :: NoCase(l.filepath) != NoCase(filepath) ==> Get(u.links, l) == Get(t.links, l))
      && u.tags == t.tags
  {
  }

  /** delete_tag removes the tag and, by the cascade, every link naming it;
      every other link is untouched. */
  lemma DeleteTagCascades(t: Tables, tag: string)
    requires t.Valid()
    ensures var u := t.DeleteTag(tag);
      && tag !in u.tags && u.Unused(tag) && u.FilesOf(tag) == {}
      && (forall l: Link :: l.tag != tag ==> Get(u.links, l) == Get(t.links, l))
      && u.bijis == t.bijis
      && (forall x :: x != tag && x in t.tags ==> x in u.tags && u.tags[x] == t.tags[x])
  {
  }

  /** update_tag(old, new) onto a name not yet used: the files that were
      linked to `old` are now exactly the files linked to `new`, and `old`
      names no tag and no link any more. */
  lemma {:induction false} UpdateTagMovesLinks(t: Tables, oldTag: string, newTag: string)
    requires t.Valid() && oldTag in t.tags && newTag !in t.tags
    ensures t.UpdateTag(oldTag, newTag).Ok?
    ensures var u := t.UpdateTag(oldTag, newTag).value;
      && u.FilesOf(newTag) == t.FilesOf(oldTag)
      && u.FilesOf(oldTag) == {} && oldTag !in u.tags
      && newTag in u.tags && u.tags[newTag] == t.tags[oldTag]
      && (forall x :: x != oldTag && x != newTag ==> u.FilesOf(x) == t.FilesOf(x))
      && u.bijis == t.bijis
  {
    var u := t.UpdateTag(oldTag, newTag).value;
    RenamedSpec(t.links, oldTag, newTag);
    forall f
      ensures f in u.FilesOf(newTag) <==> f in t.FilesOf(oldTag)
    {
      assert Get(t.links, Link(newTag, f)) == 0;
      if f in u.FilesOf(newTag) {
        var l :| l in u.links && l.tag == newTag && l.filepath == f;
        assert Link(oldTag, f) in t.links;
      }
      if f in t.FilesOf(oldTag) {
        var l :| l in t.links && l.tag == oldTag && l.filepath == f;
        assert Link(newTag, f) in u.links;
      }
    }
    forall f
      ensures f !in u.FilesOf(oldTag)
    {
      assert Get(u.links, Link(oldTag, f)) == 0;
    }
    forall x, f | x != oldTag && x != newTag
      ensures f in u.FilesOf(x) <==> f in t.FilesOf(x)
    {
      assert Get(u.links, Link(x, f)) == Get(t.links, Link(x, f));
      if f in u.FilesOf(x) {
        assert Link(x, f) in u.links;
      }
      if f in t.FilesOf(x) {
        assert Link(x, f) in t.links;
      }
    }
  }

  /** update_biji leaves the tables as they were when no row matches, and
      never changes a row's filepath or filesize. */
  lemma UpdateBijiKeepsKeyAndSize(t: Tables, r: Row)
    ensures NoCase(r.filepath) !in t.bijis ==> t.UpdateBiji(r) == Ok(t)
    ensures t.UpdateBiji(r).Ok? ==> var u := t.UpdateBiji(r).value;
      && u.bijis.Keys == t.bijis.Keys && u.tags == t.tags && u.links == t.links
      && (forall k :: k in t.bijis ==>
            u.bijis[k].filepath == t.bijis[k].filepath && u.bijis[k].filesize == t.bijis[k].filesize)
  {
  }

  /** Linking and unlinking are both tag activity: the tag's usedAt becomes
      `now`. Unlinking removes every row holding the pair. */
  lemma LinkTouchesTag(t: Tables, tag: string, filepath: string, now: IsoTime)
    ensures t.AddLink(tag, filepath, now).Ok? <==> tag in t.tags && NoCase(filepath) in t.bijis
    ensures t.AddLink(tag, filepath, now).Ok? ==> var u := t.AddLink(tag, filepath, now).value;
      && u.tags == t.tags[tag := now]
      && Get(u.links, Link(tag, filepath)) == Get(t.links, Link(tag, filepath)) + 1
      && tag in u.TagsOf(filepath)
    ensures var u := t.Unlink(tag, filepath, now);
      && Link(tag, filepath) !in u.links
      && (tag in t.tags ==> u.tags == t.tags[tag := now])
      && (tag !in t.tags ==> u.tags == t.tags)
  {
    if t.AddLink(tag, filepath, now).Ok? {
      var u := t.AddLink(tag, filepath, now).value;
      assert Link(tag, filepath) in u.links;
    }
  }

  // ---------------------------------------------------------------------
  // Listings

  /** The tags of a (tag, count) listing. */
  function TagsOfPairs(s: seq<(string, nat)>): set<string>
  {
    set i | 0 <= i < |s| :: s[i].0
  }

  predicate DistinctTags(s: seq<(string, nat)>)
  {
    forall i, j :: 0 <= i < j < |s| ==> s[i].0 != s[j].0
  }

  predicate SortedByCount(s: seq<(string, nat)>)
  {
    forall i, j :: 0 <= i < j < |s| ==> s[i].1 <= s[j].1
  }

  /** The ORDER BY count step: `x` goes after every pair whose count is not
      larger. */
  method InsertByCount(s: seq<(string, nat)>, x: (string, nat)) returns (r: seq<(string, nat)>, pos: nat)
    requires SortedByCount(s)
    ensures pos <= |s| && r == s[..pos] + [x] + s[pos..]
    ensures SortedByCount(r)
  {
    pos := 0;
    while pos < |s| && s[pos].1 <= x.1
      invariant pos <= |s|
      invariant forall j :: 0 <= j < pos ==> s[j].1 <= x.1
    {
      pos := pos + 1;
    }
    r := s[..pos] + [x] + s[pos..];
    assert forall j :: pos <= j < |s| ==> x.1 < s[j].1;
  }

  lemma InsertedPairs(s: seq<(string, nat)>, x: (string, nat), pos: nat)
    requires pos <= |s|
    requires DistinctTags(s) && x.0 !in TagsOfPairs(s)
    ensures TagsOfPairs(s[..pos] + [x] + s[pos..]) == TagsOfPairs(s) + {x.0}
    ensures DistinctTags(s[..pos] + [x] + s[pos..])
  {
    var r := s[..pos] + [x] + s[pos..];
    assert forall i :: 0 <= i < |r| ==> r[i] == if i < pos then s[i] else if i == pos then x else s[i - 1];
    forall t | t in TagsOfPairs(s) + {x.0}
      ensures t in TagsOfPairs(r)
    {
      if t != x.0 {
        var i :| 0 <= i < |s| && s[i].0 == t;
        if i < pos { assert r[i].0 == t; } else { assert r[i + 1].0 == t; }
      } else {
        assert r[pos].0 == t;
      }
    }
  }

  /** Two listings with no tag in common, all counts of the first no larger
      than those of the second, concatenate into one listing. */
  lemma AppendPairs(a: seq<(string, nat)>, b: seq<(string, nat)>)
    ensures TagsOfPairs(a + b) == TagsOfPairs(a) + TagsOfPairs(b)
    ensures DistinctTags(a) && DistinctTags(b) && TagsOfPairs(a) !! TagsOfPairs(b) ==> DistinctTags(a + b)
    ensures SortedByCount(a) && SortedByCount(b)
            && (forall i, j :: 0 <= i < |a| && 0 <= j < |b| ==> a[i].1 <= b[j].1)
            ==> SortedByCount(a + b)
  {
    var r := a + b;
    forall t | t in TagsOfPairs(a)
      ensures t in TagsOfPairs(r)
    {
      var i :| 0 <= i < |a| && a[i].0 == t;
      assert r[i].0 == t;
    }
    forall t | t in TagsOfPairs(b)
      ensures t in TagsOfPairs(r)
    {
      var j :| 0 <= j < |b| && b[j].0 == t;
      assert r[|a| + j].0 == t;
    }
    forall t | t in TagsOfPairs(r)
      ensures t in TagsOfPairs(a) + TagsOfPairs(b)
    {
      var i :| 0 <= i < |r| && r[i].0 == t;
      if i >= |a| {
        assert b[i - |a|].0 == t;
      }
    }
    if DistinctTags(a) && DistinctTags(b) && TagsOfPairs(a) !! TagsOfPairs(b) {
      forall i, j | 0 <= i < j < |r|
        ensures r[i].0 != r[j].0
      {
        if i < |a| && j >= |a| {
          assert r[i].0 in TagsOfPairs(a);
          assert b[j - |a|].0 in TagsOfPairs(b);
        }
      }
    }
  }

  /** What GET_TAGS_NOT_USED lists: every tag with no link, once, with
      count 0. */
  ghost predicate UnusedListing(t: Tables, s: seq<(string, nat)>)
  {
    && (forall x :: x in TagsOfPairs(s) <==> x in t.tags && t.Unused(x))
    && DistinctTags(s)
    && (forall i :: 0 <= i < |s| ==> s[i].1 == 0 == Count(t.links, s[i].0))
  }

  /** What GET_TAGS_ORDER_BY_COUNT lists: every tag with a link, once, with
      its number of links, in non-decreasing count. */
  ghost predicate GroupedListing(t: Tables, s: seq<(string, nat)>)
  {
    && (forall x :: x in TagsOfPairs(s) <==> x in t.tags && !t.Unused(x))
    && DistinctTags(s) && SortedByCount(s)
    && (forall i :: 0 <= i < |s| ==> 0 < s[i].1 == Count(t.links, s[i].0))
  }

  /** A listing of every tag once, with its number of links, in
      non-decreasing count. */
  ghost predicate CountListing(t: Tables, s: seq<(string, nat)>)
  {
    && TagsOfPairs(s) == t.tags.Keys && DistinctTags(s) && SortedByCount(s)
    && (forall i :: 0 <= i < |s| ==> s[i].1 == Count(t.links, s[i].0))
  }

  /** The unused tags with count 0 followed by the grouped counts name
      every tag once, in non-decreasing count. */
  lemma FullListing(t: Tables, unused: seq<(string, nat)>, grouped: seq<(string, nat)>)
    requires UnusedListing(t, unused) && GroupedListing(t, grouped)
    ensures CountListing(t, unused + grouped)
  {
    AppendPairs(unused, grouped);
    assert TagsOfPairs(unused) + TagsOfPairs(grouped) == t.tags.Keys;
    var r := unused + grouped;
    forall i | 0 <= i < |r|
      ensures r[i].1 == Count(t.links, r[i].0)
    {
      if i >= |unused| {
        assert r[i] == grouped[i - |unused|];
      }
    }
  }

  /** The loop that appends each fetched row to the result list. */
  method AppendRows(result: seq<(string, nat)>, rows: seq<(string, nat)>) returns (r: seq<(string, nat)>)
    ensures r == result + rows
  {
    r := result;
    var k := 0;
    while k < |rows|
      invariant k <= |rows|
      invariant r == result + rows[..k]
    {
      r := r + [rows[k]];
      k := k + 1;
    }
    assert rows[..k] == rows;
  }

  /** The ORDER BY count of a finished grouping: sorts the tags of `counts`
      by their count. */
  method SortByCount(counts: map<string, nat>) returns (sorted: seq<(string, nat)>)
    ensures TagsOfPairs(sorted) == counts.Keys
    ensures DistinctTags(sorted) && SortedByCount(sorted)
    ensures forall i :: 0 <= i < |sorted| ==> sorted[i].0 in counts && sorted[i].1 == counts[sorted[i].0]
  {
    sorted := [];
    var todo := counts.Keys;
    while todo != {}
      invariant todo <= counts.Keys
      invariant TagsOfPairs(sorted) == counts.Keys - todo
      invariant DistinctTags(sorted) && SortedByCount(sorted)
      invariant forall i :: 0 <= i < |sorted| ==> sorted[i].0 in counts && sorted[i].1 == counts[sorted[i].0]
      decreases todo
    {
      var t :| t in todo;
      var pos;
      ghost var before := sorted;
      sorted, pos := InsertByCount(sorted, (t, counts[t]));
      InsertedPairs(before, (t, counts[t]), pos);
      forall i | 0 <= i < |sorted|
        ensures sorted[i].0 in counts && sorted[i].1 == counts[sorted[i].0]
      {
        if i < pos {
          assert sorted[i] == before[i];
        } else if i > pos {
          assert sorted[i] == before[i - 1];
        }
      }
      todo := todo - {t};
    }
  }

  // ---------------------------------------------------------------------
  // The class

  /** BijiDatabase: the database file, the process-wide connection and the
      tables behind it. */
  class BijiDatabase {
    var fileExists: bool
    var connected: bool
    var bijis: map<string, Row>
    var tags: map<string, IsoTime>
    var links: map<Link, nat>

    function Snapshot(): Tables
      reads this
    {
      Tables(bijis, tags, links)
    }

    ghost predicate Valid()
      reads this
    {
      && (connected ==> fileExists)
      && (!fileExists ==> Snapshot() == Empty)
      && Snapshot().Valid()
    }

    /** The database file as found on disk (absent, or holding `disk`),
        before anything connects to it. */
    constructor (disk: Option<Tables>)
      requires disk.Some? ==> disk.value.Valid()
      ensures Valid() && !connected
      ensures fileExists == disk.Some?
      ensures disk.Some? ==> Snapshot() == disk.value
    {
      fileExists := disk.Some?;
      connected := false;
      var t := if disk.Some? then disk.value else Empty;
      bijis, tags, links := t.bijis, t.tags, t.links;
    }

    /** create_db: refuses an existing file, otherwise creates the empty
        schema (without connecting). */
    method CreateDb() returns (err: Option<Error>)
      requires Valid()
      modifies this
      ensures Valid()
      ensures err == (if old(fileExists) then Some(FileExists) else None)
      ensures old(fileExists) ==> unchanged(this)
      ensures !old(fileExists) ==> fileExists && connected == old(connected) && Snapshot() == Empty
    {
      if fileExists {
        return Some(FileExists);
      }
      fileExists := true;
      bijis, tags, links := map[], map[], map[];
      err := None;
    }

    /** connect_db: refuses a missing file. */
    method ConnectDb() returns (err: Option<Error>)
      requires Valid()
      modifies this
      ensures Valid()
      ensures err == (if old(fileExists) then None else Some(NotFound))
      ensures connected == (old(connected) || old(fileExists))
      ensures fileExists == old(fileExists) && Snapshot() == old(Snapshot())
    {
      if !fileExists {
        return Some(NotFound);
      }
      connected := true;
      err := None;
    }

    /** close_db. */
    method CloseDb()
      requires Valid()
      modifies this
      ensures Valid() && !connected
      ensures fileExists == old(fileExists) && Snapshot() == old(Snapshot())
    {
      connected := false;
    }

    /** update_biji. */
    method UpdateBiji(r: Row) returns (ok: bool)
      requires Valid() && connected
      modifies this
      ensures Valid() && connected && fileExists
      ensures ok == old(Snapshot()).UpdateBiji(r).Ok?
      ensures Snapshot() == if ok then old(Snapshot()).UpdateBiji(r).value else old(Snapshot())
    {
      var result := Snapshot().UpdateBiji(r);
      ok := result.Ok?;
      if ok {
        bijis := result.value.bijis;
      }
    }

    /** update_tag_time. */
    method UpdateTagTime(tag: string, now: IsoTime)
      requires Valid() && connected
      modifies this
      ensures Valid() && connected && fileExists
      ensures Snapshot() == old(Snapshot()).TouchTag(tag, now)
    {
      if tag in tags {
        tags := tags[tag := now];
      }
    }

    /** update_biji_mtime. */
    method UpdateBijiMTime(filepath: string, mtime: string) returns (ok: bool)
      requires Valid() && connected
      modifies this
      ensures Valid() && connected && fileExists
      ensures ok == old(Snapshot()).UpdateMTime(filepath, mtime).Ok?
      ensures Snapshot() == if ok then old(Snapshot()).UpdateMTime(filepath, mtime).value else old(Snapshot())
    {
      var result := Snapshot().UpdateMTime(filepath, mtime);
      ok := result.Ok?;
      if ok {
        bijis := result.value.bijis;
      }
    }

    /** unlink_tag. */
    method UnlinkTag(tag: string, filepath: string, now: IsoTime)
      requires Valid() && connected
      modifies this
      ensures Valid() && connected && fileExists
      ensures Snapshot() == old(Snapshot()).Unlink(tag, filepath, now)
    {
      links := links - {Link(tag, filepath)};
      UpdateTagTime(tag, now);
    }

    /** insert_to_tag_biji. */
    method InsertToTagBiji(tag: string, filepath: string, now: IsoTime) returns (ok: bool)
      requires Valid() && connected
      modifies this
      ensures Valid() && connected && fileExists
      ensures ok == old(Snapshot()).AddLink(tag, filepath, now).Ok?
      ensures Snapshot() == if ok then old(Snapshot()).AddLink(tag, filepath, now).value else old(Snapshot())
    {
      if tag !in tags || NoCase(filepath) !in bijis {
        return false;
      }
      var l := Link(tag, filepath);
      links := links[l := Get(links, l) + 1];
      UpdateTagTime(tag, now);
      ok := true;
    }

    /** insert_to_tags: one pass over the set, inserting each tag that
        get_tag_atime reports absent. */
    method InsertToTags(ts: set<string>, now: IsoTime)
      requires Valid() && connected
      modifies this
      ensures Valid() && connected && fileExists
      ensures Snapshot() == old(Snapshot()).InsertTags(ts, now)
    {
      var rest := ts;
      while rest != {}
        invariant rest <= ts
        invariant Valid() && connected && bijis == old(bijis) && links == old(links)
        invariant tags.Keys == old(tags).Keys + (ts - rest)
        invariant forall t :: t in old(tags) ==> tags[t] == old(tags)[t]
        invariant forall t :: t in ts - rest && t !in old(tags) ==> tags[t] == now
        decreases rest
      {
        var tag :| tag in rest;
        var atime := GetTagATime(tag);
        if atime == "" {
          tags := tags[tag := now];
        }
        rest := rest - {tag};
      }
      assert tags == old(tags) + map t | t in ts && t !in old(tags) :: now;
    }

    /** get_tag_atime. */
    method GetTagATime(tag: string) returns (atime: string)
      requires connected
      ensures atime == "" <==> tag !in tags
      ensures tag in tags ==> atime == tags[tag]
    {
      atime := if tag in tags then tags[tag] else "";
    }

    /** get_tags: one pass over the rows of tag_biji. */
    method GetTags(filepath: string) returns (result: set<string>)
      requires connected
      ensures forall t :: t in result <==> Link(t, filepath) in links
    {
      result := {};
      var rest := links.Keys;
      while rest != {}
        invariant rest <= links.Keys
        invariant forall t :: t in result <==> Link(t, filepath) in links.Keys - rest
        decreases rest
      {
        var l :| l in rest;
        if l.filepath == filepath {
          result := result + {l.tag};
        }
        rest := rest - {l};
      }
    }

    /** get_bijis: one pass over the rows of tag_biji. */
    method GetBijis(tag: string) returns (result: set<string>)
      requires connected
      ensures forall f :: f in result <==> Link(tag, f) in links
    {
      result := {};
      var rest := links.Keys;
      while rest != {}
        invariant rest <= links.Keys
        invariant forall f :: f in result <==> Link(tag, f) in links.Keys - rest
        decreases rest
      {
        var l :| l in rest;
        if l.tag == tag {
          result := result + {l.filepath};
        }
        rest := rest - {l};
      }
    }

    /** insert_to_bijis. */
    method InsertToBijis(r: Row) returns (ok: bool)
      requires Valid() && connected
      modifies this
      ensures Valid() && connected && fileExists
      ensures ok == old(Snapshot()).InsertBiji(r).Ok?
      ensures Snapshot() == if ok then old(Snapshot()).InsertBiji(r).value else old(Snapshot())
    {
      var result := Snapshot().InsertBiji(r);
      ok := result.Ok?;
      if ok {
        bijis := result.value.bijis;
      }
    }

    /** get_mtime. */
    method GetMTime(filepath: string) returns (mtime: string)
      requires Valid() && connected
      ensures mtime == "" <==> NoCase(filepath) !in bijis
      ensures NoCase(filepath) in bijis ==> mtime == bijis[NoCase(filepath)].bijiMTime
    {
      mtime := if NoCase(filepath) in bijis then bijis[NoCase(filepath)].bijiMTime else "";
    }

    /** get_all_filepaths: the stored filepath of every row, once each. */
    method GetAllFilepaths() returns (paths: seq<string>)
      requires Valid() && connected
      ensures forall f :: f in paths <==> f in Snapshot().Filepaths()
      ensures forall i, j :: 0 <= i < j < |paths| ==> NoCase(paths[i]) != NoCase(paths[j])
      ensures forall i :: 0 <= i < |paths| ==> NoCase(paths[i]) in bijis && bijis[NoCase(paths[i])].filepath == paths[i]
    {
      paths := [];
      var rest := bijis.Keys;
      while rest != {}
        invariant rest <= bijis.Keys
        invariant forall f :: f in paths <==> exists k :: k in bijis.Keys - rest && bijis[k].filepath == f
        invariant forall i :: 0 <= i < |paths| ==> NoCase(paths[i]) in bijis.Keys - rest && bijis[NoCase(paths[i])].filepath == paths[i]
        invariant forall i, j :: 0 <= i < j < |paths| ==> NoCase(paths[i]) != NoCase(paths[j])
        decreases rest
      {
        var k :| k in rest;
        paths := paths + [bijis[k].filepath];
        rest := rest - {k};
      }
    }

    /** delete_biji. */
    method DeleteBiji(filepath: string)
      requires Valid() && connected
      modifies this
      ensures Valid() && connected && fileExists
      ensures Snapshot() == old(Snapshot()).DeleteBiji(filepath)
    {
      var k := NoCase(filepath);
      if k in bijis {
        bijis := bijis - {k};
        links := map l | l in links && NoCase(l.filepath) != k :: links[l];
      }
    }

    /** get_tags_order_by_count: the unused tags with count 0, followed by
        the rows of GET_TAGS_ORDER_BY_COUNT. The whole listing names every
        tag once, with its number of links, in non-decreasing count. */
    method GetTagsOrderByCount() returns (result: seq<(string, nat)>)
      requires Valid() && connected
      ensures CountListing(Snapshot(), result)
    {
      var unused := GetTagsNotUsed();
      var grouped := GroupByTag();
      result := AppendRows(unused, grouped);
      FullListing(Snapshot(), unused, grouped);
    }

    /** get_tags_not_used: GET_TAGS_NOT_USED, each with count 0. */
    method GetTagsNotUsed() returns (result: seq<(string, nat)>)
      requires Valid() && connected
      ensures UnusedListing(Snapshot(), result)
    {
      result := [];
      var rest := tags.Keys;
      while rest != {}
        invariant rest <= tags.Keys
        invariant forall t :: t in TagsOfPairs(result) <==> t in tags.Keys - rest && Snapshot().Unused(t)
        invariant DistinctTags(result)
        invariant forall i :: 0 <= i < |result| ==> result[i].1 == 0 == Count(links, result[i].0)
        decreases rest
      {
        var t :| t in rest;
        if forall l | l in links :: l.tag != t {
          CountInZero(links, links.Keys, t);
          AppendPairs(result, [(t, 0)]);
          assert [(t, 0)][0].0 == t;
          assert TagsOfPairs([(t, 0)]) == {t};
          result := result + [(t, 0)];
        }
        rest := rest - {t};
      }
    }

    /** The GROUP BY tag of GET_TAGS_ORDER_BY_COUNT: COUNT(*) of every tag
        that has a link. */
    method CountLinks() returns (counts: map<string, nat>)
      requires Valid()
      ensures forall t :: GetCount(counts, t) == Count(links, t)
      ensures forall t :: t in counts ==> counts[t] > 0
    {
      counts := map[];
      var rest := links.Keys;
      while rest != {}
        invariant rest <= links.Keys
        invariant forall t :: GetCount(counts, t) + CountIn(links, rest, t) == Count(links, t)
        invariant forall t :: t in counts ==> counts[t] > 0
        decreases rest
      {
        var l :| l in rest;
        forall t
          ensures CountIn(links, rest, t) == (if l.tag == t then Get(links, l) else 0) + CountIn(links, rest - {l}, t)
        {
          CountInRemove(links, rest, l, t);
        }
        counts := counts[l.tag := GetCount(counts, l.tag) + links[l]];
        rest := rest - {l};
      }
    }

    /** GET_TAGS_ORDER_BY_COUNT: every linked tag once, with COUNT(*), in
        non-decreasing count. */
    method GroupByTag() returns (sorted: seq<(string, nat)>)
      requires Valid() && connected
      ensures GroupedListing(Snapshot(), sorted)
    {
      var counts := CountLinks();
      sorted := SortByCount(counts);
      forall t
        ensures t in counts <==> t in tags && !Snapshot().Unused(t)
      {
        CountInZero(links, links.Keys, t);
        assert GetCount(counts, t) == Count(links, t);
      }
    }

    /** delete_tag. */
    method DeleteTag(tag: string)
      requires Valid() && connected
      modifies this
      ensures Valid() && connected && fileExists
      ensures Snapshot() == old(Snapshot()).DeleteTag(tag)
    {
      if tag in tags {
        tags := tags - {tag};
        links := map l | l in links && l.tag != tag :: links[l];
      }
    }

    /** update_tag. */
    method UpdateTag(oldTag: string, newTag: string) returns (ok: bool)
      requires Valid() && connected
      modifies this
      ensures Valid() && connected && fileExists
      ensures ok == old(Snapshot()).UpdateTag(oldTag, newTag).Ok?
      ensures Snapshot() == if ok then old(Snapshot()).UpdateTag(oldTag, newTag).value else old(Snapshot())
    {
      var result := Snapshot().UpdateTag(oldTag, newTag);
      ok := result.Ok?;
      if ok {
        tags, links := result.value.tags, result.value.links;
      }
    }
  }
}
