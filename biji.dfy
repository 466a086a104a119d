/** The sidecar record of bijibiji/bijitags/biji.py: the class Biji, its
    JSON form, the way it is loaded from and written to its sidecar, and the
    way it is pushed into the index, up to the batch retagging that the tag
    wizard runs. */
module BijiRecord {
  import opened Basics
  import opened Storage
  import opened Database

  // ---------------------------------------------------------------------
  // Paths

  /** get_biji_json_path: the sidecar of a file sits next to it. */
  function SidecarPath(filepath: string): (p: string)
    ensures EndsWith(p, SidecarSuffix) && |p| == |filepath| + |SidecarSuffix|
    ensures p[..|filepath|] == filepath
  {
    filepath + SidecarSuffix
  }

  /** The scanners' str(biji_path)[:-len('.biji.json')]. */
  function TrackedPath(p: string): string
    requires EndsWith(p, SidecarSuffix)
  {
    p[..|p| - |SidecarSuffix|]
  }

  /** The two rules undo each other, so two files never share a sidecar and
      every sidecar belongs to exactly one path. */
  lemma SidecarPathRoundTrip(f: string, p: string)
    ensures TrackedPath(SidecarPath(f)) == f
    ensures EndsWith(p, SidecarSuffix) ==> SidecarPath(TrackedPath(p)) == p
  {
    if EndsWith(p, SidecarSuffix) {
      assert p == p[..|p| - |SidecarSuffix|] + p[|p| - |SidecarSuffix|..];
    }
  }

  lemma SidecarPathInjective(f: string, g: string)
    ensures SidecarPath(f) == SidecarPath(g) ==> f == g
  {
    SidecarPathRoundTrip(f, "");
    SidecarPathRoundTrip(g, "");
  }

  /** Where the last component of a path starts: just past its last '/'. */
  function NameStart(p: string): (i: nat)
    ensures i <= |p|
    ensures forall j :: i <= j < |p| ==> p[j] != '/'
    ensures i == 0 || p[i - 1] == '/'
  {
    if p == [] || p[|p| - 1] == '/' then |p| else NameStart(p[..|p| - 1])
  }

  /** The path without its trailing slashes, which PurePath drops. */
  function TrimSlashes(p: string): (q: string)
    ensures |q| <= |p| && q == p[..|q|]
    ensures forall j :: |q| <= j < |p| ==> p[j] == '/'
    ensures q == [] || q[|q| - 1] != '/'
  {
    if p != [] && p[|p| - 1] == '/' then TrimSlashes(p[..|p| - 1]) else p
  }

  /** PurePath.name: everything after the last '/' once trailing slashes
      are dropped; '' only for a path made of slashes alone. */
  function FileName(p: string): (name: string)
    ensures forall j :: 0 <= j < |name| ==> name[j] != '/'
    ensures var q := TrimSlashes(p);
      EndsWith(q, name) && (|name| == |q| || q[|q| - |name| - 1] == '/')
    ensures name == [] <==> TrimSlashes(p) == []
  {
    var q := TrimSlashes(p);
    q[NameStart(q)..]
  }

  /** str.rfind('.'): the index of the last dot, or -1. */
  function LastDot(s: string): (i: int)
    ensures -1 <= i < |s|
    ensures i >= 0 ==> s[i] == '.'
    ensures forall j :: i < j < |s| ==> s[j] != '.'
  {
    if s == [] then -1
    else if s[|s| - 1] == '.' then |s| - 1
    else LastDot(s[..|s| - 1])
  }

  /** PurePath.suffix of a file name: from its last dot on, unless that dot
      starts or ends the name. */
  function Suffix(name: string): (s: string)
    ensures s == [] || (|s| >= 2 && s[0] == '.' && EndsWith(name, s))
    ensures forall j :: 0 < j < |s| ==> s[j] != '.'
  {
    var i := LastDot(name);
    if 0 < i < |name| - 1 then name[i..] else ""
  }

  // ---------------------------------------------------------------------
  // The record and its JSON form

  /** The ten fields of a Biji. */
  datatype Record = Record(
    filepath: string,
    filename: string,
    suffix: string,
    mimetype: Option<string>,
    filesize: int,
    updatedAt: string,
    backupAt: string,
    bijiCTime: string,
    bijiMTime: string,
    tags: set<string>)

  /** Biji._fields. */
  datatype Field = FilepathKey | FilenameKey | SuffixKey | MimetypeKey | FilesizeKey
                 | UpdatedAtKey | BackupAtKey | BijiCTimeKey | BijiMTimeKey | TagsKey

  /** The JSON key of a field. */
  function Name(f: Field): string
  {
    match f
    case FilepathKey => "filepath"
    case FilenameKey => "filename"
    case SuffixKey => "suffix"
    case MimetypeKey => "mimetype"
    case FilesizeKey => "filesize"
    case UpdatedAtKey => "updatedAt"
    case BackupAtKey => "backupAt"
    case BijiCTimeKey => "bijiCTime"
    case BijiMTimeKey => "bijiMTime"
    case TagsKey => "tags"
  }

  /** Biji._fields, in its declared order. */
  const Fields: seq<Field> := [FilepathKey, FilenameKey, SuffixKey, MimetypeKey, FilesizeKey,
                               UpdatedAtKey, BackupAtKey, BijiCTimeKey, BijiMTimeKey, TagsKey]

  /** The position of a field in Fields. */
  function Index(f: Field): (i: nat)
    ensures i < |Fields| && Fields[i] == f
  {
    match f
    case FilepathKey => 0
    case FilenameKey => 1
    case SuffixKey => 2
    case MimetypeKey => 3
    case FilesizeKey => 4
    case UpdatedAtKey => 5
    case BackupAtKey => 6
    case BijiCTimeKey => 7
    case BijiMTimeKey => 8
    case TagsKey => 9
  }

  lemma IndexOfField(j: nat)
    requires j < |Fields|
    ensures Index(Fields[j]) == j
  {
  }

  lemma NameInjective(f: Field, g: Field)
    ensures Name(f) == Name(g) ==> f == g
  {
  }

  /** The JSON value a field is written as. */
  function FieldValue(b: Record, f: Field): JsonValue
  {
    match f
    case FilepathKey => JStr(b.filepath)
    case FilenameKey => JStr(b.filename)
    case SuffixKey => JStr(b.suffix)
    case MimetypeKey => if b.mimetype.Some? then JStr(b.mimetype.value) else JNull
    case FilesizeKey => JInt(b.filesize)
    case UpdatedAtKey => JStr(b.updatedAt)
    case BackupAtKey => JStr(b.backupAt)
    case BijiCTimeKey => JStr(b.bijiCTime)
    case BijiMTimeKey => JStr(b.bijiMTime)
    case TagsKey => JArray(b.tags)
  }

  /** _asdict: every field under its key, and nothing else. */
  function AsDict(b: Record): Dict
  {
    map f | f in Fields :: Name(f) := FieldValue(b, f)
  }

  lemma DictLookup(b: Record, f: Field)
    ensures Name(f) in AsDict(b) && AsDict(b)[Name(f)] == FieldValue(b, f)
  {
    forall g | g in Fields && Name(g) == Name(f)
      ensures g == f
    {
      NameInjective(g, f);
    }
  }

  /** _asdict yields exactly the ten recognised keys. */
  lemma AsDictKeys(b: Record)
    ensures forall k :: k in AsDict(b) <==> exists f :: Name(f) == k
  {
    forall k | exists f :: Name(f) == k
      ensures k in AsDict(b)
    {
      var f :| Name(f) == k;
      DictLookup(b, f);
    }
  }

  /** One step of from_file's overlay, biji.__dict__['_' + field] = value;
      a value of the wrong JSON type for the field is not taken. */
  function SetField(b: Record, f: Field, v: JsonValue): Record
  {
    match f
    case FilepathKey => if v.JStr? then b.(filepath := v.s) else b
    case FilenameKey => if v.JStr? then b.(filename := v.s) else b
    case SuffixKey => if v.JStr? then b.(suffix := v.s) else b
    case MimetypeKey =>
      if v.JStr? then b.(mimetype := Some(v.s)) else if v.JNull? then b.(mimetype := None) else b
    case FilesizeKey => if v.JInt? then b.(filesize := v.i) else b
    case UpdatedAtKey => if v.JStr? then b.(updatedAt := v.s) else b
    case BackupAtKey => if v.JStr? then b.(backupAt := v.s) else b
    case BijiCTimeKey => if v.JStr? then b.(bijiCTime := v.s) else b
    case BijiMTimeKey => if v.JStr? then b.(bijiMTime := v.s) else b
    case TagsKey => if v.JArray? then b.(tags := v.items) else b
  }

  /** The overlay of field `f` when the dictionary has its key. */
  function Step(b: Record, d: Dict, f: Field): Record
  {
    if Name(f) in d then SetField(b, f, d[Name(f)]) else b
  }

  /** from_file's loop over _fields, from position i on. */
  function OverlayFrom(b: Record, d: Dict, i: nat): Record
    requires i <= |Fields|
    decreases |Fields| - i
  {
    if i == |Fields| then b else OverlayFrom(Step(b, d, Fields[i]), d, i + 1)
  }

  function Overlay(b: Record, d: Dict): Record
  {
    OverlayFrom(b, d, 0)
  }

  /** Setting one field leaves the others alone, and what it sets depends
      only on the value given and on that field's old value. */
  lemma SetFieldLocal(r: Record, s: Record, f: Field, v: JsonValue)
    ensures forall g :: g != f ==> FieldValue(SetField(r, f, v), g) == FieldValue(r, g)
    ensures FieldValue(r, f) == FieldValue(s, f) ==> FieldValue(SetField(r, f, v), f) == FieldValue(SetField(s, f, v), f)
  {
  }

  /** After the loop from position i, a field already passed keeps its value
      and every later field holds what the dictionary gives for it. */
  lemma {:induction false} OverlayFromField(x: Record, d: Dict, i: nat, f: Field)
    requires i <= |Fields|
    ensures FieldValue(OverlayFrom(x, d, i), f) == if Index(f) < i then FieldValue(x, f) else FieldValue(Step(x, d, f), f)
    decreases |Fields| - i
  {
    if i < |Fields| {
      var g := Fields[i];
      IndexOfField(i);
      var x' := Step(x, d, g);
      OverlayFromField(x', d, i + 1, f);
      SetFieldLocal(x, x, g, if Name(g) in d then d[Name(g)] else JNull);
      if Index(f) > i && Name(f) in d {
        SetFieldLocal(x', x, f, d[Name(f)]);
      }
    }
  }

  /** Records that agree on every field are equal. */
  lemma AllFieldsEqual(r: Record, b: Record)
    requires forall f :: FieldValue(r, f) == FieldValue(b, f)
    ensures r == b
  {
    assert FieldValue(r, FilepathKey) == FieldValue(b, FilepathKey);
    assert FieldValue(r, FilenameKey) == FieldValue(b, FilenameKey);
    assert FieldValue(r, SuffixKey) == FieldValue(b, SuffixKey);
    assert FieldValue(r, MimetypeKey) == FieldValue(b, MimetypeKey);
    assert FieldValue(r, FilesizeKey) == FieldValue(b, FilesizeKey);
    assert FieldValue(r, UpdatedAtKey) == FieldValue(b, UpdatedAtKey);
    assert FieldValue(r, BackupAtKey) == FieldValue(b, BackupAtKey);
    assert FieldValue(r, BijiCTimeKey) == FieldValue(b, BijiCTimeKey);
    assert FieldValue(r, BijiMTimeKey) == FieldValue(b, BijiMTimeKey);
    assert FieldValue(r, TagsKey) == FieldValue(b, TagsKey);
  }

  /** Loading what write_file wrote gives the record back, whatever record
      the overlay starts from. */
  lemma OverlayAsDict(x: Record, b: Record)
    ensures Overlay(x, AsDict(b)) == b
  {
    forall f
      ensures FieldValue(Overlay(x, AsDict(b)), f) == FieldValue(b, f)
    {
      OverlayAsDictField(x, b, f);
    }
    AllFieldsEqual(Overlay(x, AsDict(b)), b);
  }

  lemma OverlayAsDictField(x: Record, b: Record, f: Field)
    ensures FieldValue(Overlay(x, AsDict(b)), f) == FieldValue(b, f)
  {
    OverlayFromField(x, AsDict(b), 0, f);
    DictLookup(b, f);
  }

  /** The tags a sidecar holds: its "tags" array, or none. */
  function StoredTags(d: Dict): set<string>
  {
    if "tags" in d && d["tags"].JArray? then d["tags"].items else {}
  }

  /** A sidecar whose stored "filepath" is not the path it sits next to.
      from_file compares the stored value itself, so a value that is not a
      string differs from every path too. */
  predicate StalePath(d: Dict, filepath: string)
  {
    "filepath" in d && d["filepath"] != JStr(filepath)
  }

  /** What write_file writes names the record's own path. */
  lemma AsDictNotStale(b: Record)
    ensures !StalePath(AsDict(b), b.filepath)
  {
    DictLookup(b, FilepathKey);
  }

  /** What the overlay does to the tags and the filepath. */
  lemma OverlayTagsAndPath(x: Record, d: Dict)
    ensures Overlay(x, d).tags == if "tags" in d && d["tags"].JArray? then d["tags"].items else x.tags
    ensures Overlay(x, d).filepath == if "filepath" in d && d["filepath"].JStr? then d["filepath"].s else x.filepath
  {
    OverlayFromField(x, d, 0, TagsKey);
    OverlayFromField(x, d, 0, FilepathKey);
  }

  /** The key order json.dumps(..., sort_keys=True) writes. */
  const SortedFields: seq<Field> := [BackupAtKey, BijiCTimeKey, BijiMTimeKey, FilenameKey, FilepathKey,
                                     FilesizeKey, MimetypeKey, SuffixKey, TagsKey, UpdatedAtKey]

  /** _asjson: the members of the JSON object, in the order written. */
  function AsJson(b: Record): seq<(string, JsonValue)>
  {
    seq(|SortedFields|, i requires 0 <= i < |SortedFields| => (Name(SortedFields[i]), FieldValue(b, SortedFields[i])))
  }

  lemma SortedByAdjacent(s: seq<string>)
    requires forall i :: 0 <= i < |s| - 1 ==> Less(s[i], s[i + 1])
    ensures forall i, k :: 0 <= i < k < |s| ==> Less(s[i], s[k])
  {
    forall i, k | 0 <= i < k < |s|
      ensures Less(s[i], s[k])
    {
      var j := i + 1;
      while j < k
        invariant i < j <= k && Less(s[i], s[j])
      {
        LessTransitive(s[i], s[j], s[j + 1]);
        j := j + 1;
      }
    }
  }

  /** The keys in the order written. */
  const SortedKeys: seq<string> := ["backupAt", "bijiCTime", "bijiMTime", "filename", "filepath",
                                    "filesize", "mimetype", "suffix", "tags", "updatedAt"]

  lemma SortedKeysNames()
    ensures |SortedKeys| == |SortedFields|
    ensures forall i :: 0 <= i < |SortedKeys| ==> SortedKeys[i] == Name(SortedFields[i])
  {
  }

  /** Each key is below the next. */
  lemma SortedKeysAdjacent()
    ensures forall i :: 0 <= i < |SortedKeys| - 1 ==> Less(SortedKeys[i], SortedKeys[i + 1])
  {
    SortedKeysAdjacentLow();
    LessAt("filesize", "mimetype", 0);
    LessAt("mimetype", "suffix", 0);
    LessAt("suffix", "tags", 0);
    LessAt("tags", "updatedAt", 0);
  }

  lemma SortedKeysAdjacentLow()
    ensures forall i :: 0 <= i < 5 ==> Less(SortedKeys[i], SortedKeys[i + 1])
  {
    SortedKeysAdjacentFirst();
    LessAt("filename", "filepath", 4);
    LessAt("filepath", "filesize", 4);
  }

  lemma SortedKeysAdjacentFirst()
    ensures forall i :: 0 <= i < 3 ==> Less(SortedKeys[i], SortedKeys[i + 1])
  {
    LessAt("backupAt", "bijiCTime", 1);
    LessAt("bijiCTime", "bijiMTime", 4);
    LessAt("bijiMTime", "filename", 0);
  }

  /** Every field appears in the written order. */
  lemma SortedFieldsComplete(f: Field)
    ensures f in SortedFields
  {
  }

  /** _asjson writes each of the ten fields once, under its key, with its
      value, with keys in increasing order. */
  lemma AsJsonSorted(b: Record)
    ensures var members := AsJson(b);
      && (forall i, k :: 0 <= i < k < |members| ==> Less(members[i].0, members[k].0))
      && (forall i :: 0 <= i < |members| ==> members[i].0 in AsDict(b) && AsDict(b)[members[i].0] == members[i].1)
      && (forall f :: (Name(f), FieldValue(b, f)) in members)
  {
    AsJsonKeysSorted(b);
    AsJsonValues(b);
    AsJsonComplete(b);
  }

  lemma AsJsonKeysSorted(b: Record)
    ensures var members := AsJson(b);
      forall i, k :: 0 <= i < k < |members| ==> Less(members[i].0, members[k].0)
  {
    SortedKeysNames();
    SortedKeysAdjacent();
    SortedByAdjacent(SortedKeys);
    assert forall i :: 0 <= i < |AsJson(b)| ==> AsJson(b)[i].0 == SortedKeys[i];
  }

  lemma AsJsonValues(b: Record)
    ensures var members := AsJson(b);
      forall i :: 0 <= i < |members| ==> members[i].0 in AsDict(b) && AsDict(b)[members[i].0] == members[i].1
  {
    var members := AsJson(b);
    forall i | 0 <= i < |members|
      ensures members[i].0 in AsDict(b) && AsDict(b)[members[i].0] == members[i].1
    {
      DictLookup(b, SortedFields[i]);
    }
  }

  lemma AsJsonComplete(b: Record)
    ensures forall f :: (Name(f), FieldValue(b, f)) in AsJson(b)
  {
    var members := AsJson(b);
    forall f
      ensures (Name(f), FieldValue(b, f)) in members
    {
      SortedFieldsComplete(f);
      var i :| 0 <= i < |SortedFields| && SortedFields[i] == f;
      assert members[i] == (Name(f), FieldValue(b, f));
    }
  }

  /** Biji(filepath, tags): the fields derived from the path, lstat(), the
      clock and mimetypes. */
  function Fresh(filepath: string, tags: set<string>, st: Stat, env: Env): (b: Record)
    ensures b.filepath == filepath && b.tags == tags
    ensures b.bijiCTime == b.bijiMTime == env.now && b.backupAt == ""
    ensures b.filesize == st.size && b.updatedAt == st.mtime
    ensures forall j :: 0 <= j < |b.filename| ==> b.filename[j] != '/'
    ensures b.suffix == [] || (b.suffix[0] == '.' && EndsWith(b.filename, Suffix(b.filename)))
    ensures forall j :: 0 <= j < |b.suffix| ==> !('A' <= b.suffix[j] <= 'Z')
  {
    var name := FileName(filepath);
    NoCaseLower(Suffix(name));
    Record(filepath, name, NoCase(Suffix(name)), env.guessType(filepath), st.size, st.mtime,
           "", env.now, env.now, tags)
  }

  /** The tags setter: the collection is replaced and bijiMTime is now. */
  function WithTags(b: Record, tags: set<string>, now: IsoTime): Record
  {
    b.(tags := tags, bijiMTime := now)
  }

  /** The row of `bijis` that _asdict() fills in. */
  function ToRow(b: Record): Row
  {
    Row(b.filepath, b.filename, b.suffix, b.mimetype, b.filesize, b.updatedAt, b.backupAt, b.bijiCTime, b.bijiMTime)
  }

  // ---------------------------------------------------------------------
  // Writing a record into the index

  /** Every tag of S touched: usedAt becomes now. */
  function Touched(tags: map<string, IsoTime>, S: set<string>, now: IsoTime): (r: map<string, IsoTime>)
    ensures r.Keys == tags.Keys
  {
    map x | x in tags :: if x in S then now else tags[x]
  }

  /** The bag with one more row for each pair (x, fp) with x in S. */
  function Bumped(bag: map<Link, nat>, S: set<string>, fp: string): map<Link, nat>
  {
    map l | l in bag.Keys + (set x | x in S :: Link(x, fp)) ::
      Get(bag, l) + (if l.filepath == fp && l.tag in S then 1 else 0)
  }

  lemma BumpedAt(bag: map<Link, nat>, S: set<string>, fp: string, l: Link)
    ensures l in Bumped(bag, S, fp) <==> l in bag || (l.filepath == fp && l.tag in S)
    ensures Get(Bumped(bag, S, fp), l) == Get(bag, l) + (if l.filepath == fp && l.tag in S then 1 else 0)
  {
    if l.filepath == fp && l.tag in S {
      assert l == Link(l.tag, fp);
    }
  }

  /** insert_to_tag_biji(x, fp) for every x of S, when all succeed. */
  function Linked(t: Tables, S: set<string>, fp: string, now: IsoTime): (u: Tables)
    ensures u.bijis == t.bijis && u.tags.Keys == t.tags.Keys
  {
    t.(links := Bumped(t.links, S, fp), tags := Touched(t.tags, S, now))
  }

  /** unlink_tag(x, fp) for every x of S. */
  function Unlinked(t: Tables, S: set<string>, fp: string, now: IsoTime): (u: Tables)
    ensures u.bijis == t.bijis && u.tags.Keys == t.tags.Keys
  {
    t.(links := map l | l in t.links && !(l.filepath == fp && l.tag in S) :: t.links[l],
       tags := Touched(t.tags, S, now))
  }

  /** insert_tags_to_db: insert_to_tags, then a link per tag; the first link
      the foreign key rejects raises, after the tags were inserted. */
  function TagsInserted(t: Tables, b: Record, now: IsoTime): Outcome<Tables>
  {
    var u := t.InsertTags(b.tags, now);
    if b.tags != {} && NoCase(b.filepath) !in u.bijis then Outcome(u, Some(Integrity))
    else Outcome(Linked(u, b.tags, b.filepath, now), None)
  }

  /** insert_biji_and_tags_to_db. */
  function BijiAndTagsInserted(t: Tables, b: Record, now: IsoTime): Outcome<Tables>
  {
    match t.InsertBiji(ToRow(b))
    case Err(e) => Outcome(t, Some(e))
    case Ok(u) => TagsInserted(u, b, now)
  }

  /** update_tags_to_db: unlink every tag get_tags reports, then insert. */
  function TagsReplaced(t: Tables, b: Record, now: IsoTime): Outcome<Tables>
  {
    TagsInserted(Unlinked(t, t.TagsOf(b.filepath), b.filepath, now), b, now)
  }

  /** update_biji_and_tags_to_db. */
  function BijiAndTagsUpdated(t: Tables, b: Record, now: IsoTime): Outcome<Tables>
  {
    match t.UpdateBiji(ToRow(b))
    case Err(e) => Outcome(t, Some(e))
    case Ok(u) => TagsReplaced(u, b, now)
  }

  /** The index step shared by update_tags_for_files and the scanner:
      insert when get_mtime reports no row, update when the record's
      bijiMTime is newer, and otherwise leave the index alone. */
  function Synced(t: Tables, b: Record, now: IsoTime): Outcome<Tables>
  {
    var m := t.MTime(b.filepath);
    if m == "" then BijiAndTagsInserted(t, b, now)
    else if Less(m, b.bijiMTime) then BijiAndTagsUpdated(t, b, now)
    else Outcome(t, None)
  }

  /** Linking a set of tags adds exactly those tags to the file's tags and
      keeps the schema's constraints. */
  lemma LinkedSpec(t: Tables, S: set<string>, fp: string, now: IsoTime)
    requires t.Valid() && S <= t.tags.Keys && (S != {} ==> NoCase(fp) in t.bijis)
    ensures var u := Linked(t, S, fp, now);
      && u.Valid()
      && u.TagsOf(fp) == t.TagsOf(fp) + S
      && (forall x :: x in S ==> Get(u.links, Link(x, fp)) == Get(t.links, Link(x, fp)) + 1)
      && (forall l: Link :: l.filepath != fp ==> Get(u.links, l) == Get(t.links, l))
  {
    var u := Linked(t, S, fp, now);
    forall l: Link
      ensures (l in u.links <==> l in t.links || (l.filepath == fp && l.tag in S))
      ensures Get(u.links, l) == Get(t.links, l) + (if l.filepath == fp && l.tag in S then 1 else 0)
    {
      BumpedAt(t.links, S, fp, l);
    }
    LinkedValid(t, u, S, fp);
    LinkedTagsOf(t, u, S, fp);
  }

  lemma LinkedValid(t: Tables, u: Tables, S: set<string>, fp: string)
    requires t.Valid() && S <= t.tags.Keys && (S != {} ==> NoCase(fp) in t.bijis)
    requires u.bijis == t.bijis && u.tags.Keys == t.tags.Keys
    requires forall l: Link :: l in u.links <==> l in t.links || (l.filepath == fp && l.tag in S)
    requires forall l: Link :: Get(u.links, l) == Get(t.links, l) + (if l.filepath == fp && l.tag in S then 1 else 0)
    ensures u.Valid()
  {
    forall l | l in u.links
      ensures u.links[l] > 0 && l.tag in u.tags && NoCase(l.filepath) in u.bijis
    {
      assert u.links[l] == Get(u.links, l);
    }
  }

  lemma LinkedTagsOf(t: Tables, u: Tables, S: set<string>, fp: string)
    requires forall l: Link :: l in u.links <==> l in t.links || (l.filepath == fp && l.tag in S)
    ensures u.TagsOf(fp) == t.TagsOf(fp) + S
  {
    forall x | x in S
      ensures x in u.TagsOf(fp)
    {
      assert Link(x, fp) in u.links;
    }
    forall x | x in u.TagsOf(fp)
      ensures x in t.TagsOf(fp) + S
    {
      var l :| l in u.links && l.filepath == fp && l.tag == x;
      if l in t.links {
        assert x in t.TagsOf(fp);
      }
    }
    forall x | x in t.TagsOf(fp)
      ensures x in u.TagsOf(fp)
    {
      var l :| l in t.links && l.filepath == fp && l.tag == x;
      assert l in u.links;
    }
  }

  /** Unlinking removes exactly the pairs of the file with the tags of S. */
  lemma UnlinkedSpec(t: Tables, S: set<string>, fp: string, now: IsoTime)
    requires t.Valid()
    ensures var u := Unlinked(t, S, fp, now);
      && u.Valid() && u.bijis == t.bijis && u.tags.Keys == t.tags.Keys
      && u.TagsOf(fp) == t.TagsOf(fp) - S
      && (forall l: Link :: !(l.filepath == fp && l.tag in S) ==> Get(u.links, l) == Get(t.links, l))
  {
    var u := Unlinked(t, S, fp, now);
    forall x | x in t.TagsOf(fp) - S
      ensures x in u.TagsOf(fp)
    {
      assert Link(x, fp) in u.links;
    }
  }

  /** insert_tags_to_db succeeds exactly when the file has a row (or there
      is nothing to link), and then the file's tags gain exactly the
      record's tags, each of which has a row in `tags`. */
  lemma TagsInsertedSpec(t: Tables, b: Record, now: IsoTime)
    requires t.Valid()
    ensures var o := TagsInserted(t, b, now);
      && o.state.Valid() && o.state.bijis == t.bijis
      && (o.error == None <==> b.tags == {} || NoCase(b.filepath) in t.bijis)
      && (o.error == None ==> o.state.TagsOf(b.filepath) == t.TagsOf(b.filepath) + b.tags)
      && b.tags <= o.state.tags.Keys
      && (forall l: Link :: l.filepath != b.filepath ==> Get(o.state.links, l) == Get(t.links, l))
  {
    var u := t.InsertTags(b.tags, now);
    InsertTagsSpec(t, b.tags, now);
    if b.tags == {} || NoCase(b.filepath) in u.bijis {
      LinkedSpec(u, b.tags, b.filepath, now);
    }
  }

  /** update_tags_to_db replaces the file's links: afterwards the file is
      linked to exactly the record's tags, once each, and the links of
      every other filepath are untouched. */
  lemma TagsReplacedSpec(t: Tables, b: Record, now: IsoTime)
    requires t.Valid() && NoCase(b.filepath) in t.bijis
    ensures var o := TagsReplaced(t, b, now);
      && o.error == None && o.state.Valid() && o.state.bijis == t.bijis
      && o.state.TagsOf(b.filepath) == b.tags
      && (forall x :: x in b.tags ==> Get(o.state.links, Link(x, b.filepath)) == 1)
      && (forall l: Link :: l.filepath != b.filepath ==> Get(o.state.links, l) == Get(t.links, l))
  {
    var fp := b.filepath;
    var u := Unlinked(t, t.TagsOf(fp), fp, now);
    UnlinkedSpec(t, t.TagsOf(fp), fp, now);
    forall x
      ensures Get(u.links, Link(x, fp)) == 0
    {
      if Link(x, fp) in t.links {
        assert x in t.TagsOf(fp);
      }
    }
    var v := u.InsertTags(b.tags, now);
    InsertTagsSpec(u, b.tags, now);
    LinkedSpec(v, b.tags, fp, now);
    TagsInsertedSpec(u, b, now);
  }

  /** No row for the filepath means no link names it either. */
  lemma NoRowNoLinks(t: Tables, fp: string)
    requires t.Valid() && NoCase(fp) !in t.bijis
    ensures t.TagsOf(fp) == {}
  {
  }

  /** The index step: it fails only when a row would be inserted with an
      empty bijiMTime; when it succeeds the index holds the file with a
      bijiMTime no older than the record's, and when it wrote, the row's
      bijiMTime and the file's tags are the record's. */
  lemma SyncedSpec(t: Tables, b: Record, now: IsoTime)
    requires t.Valid()
    ensures var o := Synced(t, b, now); var m := t.MTime(b.filepath);
      && o.state.Valid()
      && (o.error != None <==> m == "" && b.bijiMTime == "")
      && (o.error == None ==> o.state.MTime(b.filepath) != "" && !Less(o.state.MTime(b.filepath), b.bijiMTime))
      && (o.error == None && (m == "" || Less(m, b.bijiMTime)) ==>
            o.state.MTime(b.filepath) == b.bijiMTime && o.state.TagsOf(b.filepath) == b.tags)
      && (m != "" && !Less(m, b.bijiMTime) ==> o == Outcome(t, None))
  {
    var fp := b.filepath;
    var m := t.MTime(fp);
    EmptyMeansAbsent(t, fp, "");
    if m == "" {
      if b.bijiMTime != "" {
        var u := t.InsertBiji(ToRow(b)).value;
        NoRowNoLinks(t, fp);
        assert u.TagsOf(fp) == {};
        TagsInsertedSpec(u, b, now);
        LessIrreflexive(b.bijiMTime);
      }
    } else if Less(m, b.bijiMTime) {
      LessEmpty(m);
      var u := t.UpdateBiji(ToRow(b)).value;
      TagsReplacedSpec(u, b, now);
      LessIrreflexive(b.bijiMTime);
    }
  }

  // ---------------------------------------------------------------------
  // Batch retagging over the whole state

  /** The tracked files, the sidecars and the index. */
  datatype World = World(files: map<string, Stat>, sidecars: map<string, Dict>, db: Tables)

  /** from_file(filepath): the record and the sidecars afterwards; the
      sidecar is read first, then the Biji is constructed, then overlaid,
      and rewritten when its stored filepath is not the path. */
  function Load(files: map<string, Stat>, sidecars: map<string, Dict>, filepath: string, env: Env): Result<(Record, map<string, Dict>)>
  {
    var sp := SidecarPath(filepath);
    if sp !in sidecars then Err(NotFound)
    else if filepath !in files then Err(NotFound)
    else
      var b := Overlay(Fresh(filepath, {}, files[filepath], env), sidecars[sp]);
      if StalePath(sidecars[sp], filepath) then
        var c := b.(filepath := filepath);
        Ok((c, sidecars[sp := AsDict(c)]))
      else Ok((b, sidecars))
  }

  /** After from_file(f) the record's filepath is f, its tags are the
      sidecar's, and the sidecar was rewritten exactly when its stored
      filepath is not f, whatever the stored value's type. */
  lemma LoadSpec(files: map<string, Stat>, sidecars: map<string, Dict>, filepath: string, env: Env)
    ensures var r := Load(files, sidecars, filepath, env); var sp := SidecarPath(filepath);
      && (r.Ok? <==> sp in sidecars && filepath in files)
      && (r.Ok? ==>
            && r.value.0.filepath == filepath
            && r.value.0.tags == StoredTags(sidecars[sp])
            && r.value.1 == (if StalePath(sidecars[sp], filepath) then sidecars[sp := AsDict(r.value.0)] else sidecars))
  {
    var sp := SidecarPath(filepath);
    if sp in sidecars && filepath in files {
      var start := Fresh(filepath, {}, files[filepath], env);
      var b := Overlay(start, sidecars[sp]);
      OverlayTagsAndPath(start, sidecars[sp]);
      var c := b.(filepath := filepath);
      assert Load(files, sidecars, filepath, env) == if StalePath(sidecars[sp], filepath) then Ok((c, sidecars[sp := AsDict(c)])) else Ok((b, sidecars));
    }
  }

  /** The tags written by write_file are the record's. */
  lemma StoredTagsAsDict(b: Record)
    ensures StoredTags(AsDict(b)) == b.tags
  {
    DictLookup(b, TagsKey);
    assert Name(TagsKey) == "tags";
  }

  /** The record update_tags_for_files works on: from_file when the sidecar
      exists, a fresh Biji(file) otherwise. */
  function Loaded(files: map<string, Stat>, sidecars: map<string, Dict>, file: string, env: Env): Result<(Record, map<string, Dict>)>
  {
    if SidecarPath(file) in sidecars then Load(files, sidecars, file, env)
    else if file in files then Ok((Fresh(file, {}, files[file], env), sidecars))
    else Err(NotFound)
  }

  /** The tags the sidecar of a file records; none without a sidecar. */
  function FileTags(sidecars: map<string, Dict>, file: string): set<string>
  {
    if SidecarPath(file) in sidecars then StoredTags(sidecars[SidecarPath(file)]) else {}
  }

  /** Two sidecar maps that differ at most in the sidecar `sp`. */
  ghost predicate SameOutside(a: map<string, Dict>, b: map<string, Dict>, sp: string)
  {
    && (forall p :: p != sp ==> (p in a <==> p in b))
    && (forall p :: p != sp && p in a && p in b ==> a[p] == b[p])
  }

  /** Loading fails only for a missing file; otherwise the record carries
      the file's path and the tags its sidecar records, and only a sidecar
      that named another path is rewritten, with the same tags. */
  lemma LoadedSpec(files: map<string, Stat>, sidecars: map<string, Dict>, file: string, env: Env)
    ensures var r := Loaded(files, sidecars, file, env); var sp := SidecarPath(file);
      && (r.Err? <==> file !in files) && (r.Err? ==> r.error == NotFound)
      && (r.Ok? ==>
            && r.value.0.filepath == file
            && r.value.0.tags == FileTags(sidecars, file)
            && FileTags(r.value.1, file) == FileTags(sidecars, file)
            && SameOutside(r.value.1, sidecars, sp)
            && (sp in r.value.1 <==> sp in sidecars)
            && (sp in sidecars && StalePath(sidecars[sp], file) ==> r.value.1[sp] == AsDict(r.value.0))
            && (sp !in sidecars || !StalePath(sidecars[sp], file) ==> r.value.1 == sidecars))
  {
    var sp := SidecarPath(file);
    if sp in sidecars && file in files {
      LoadedFromSidecar(files, sidecars, file, env);
    }
  }

  lemma LoadedFromSidecar(files: map<string, Stat>, sidecars: map<string, Dict>, file: string, env: Env)
    requires SidecarPath(file) in sidecars && file in files
    ensures var r := Load(files, sidecars, file, env).value; var sp := SidecarPath(file);
      && r.0.filepath == file
      && r.0.tags == StoredTags(sidecars[sp])
      && sp in r.1 && StoredTags(r.1[sp]) == StoredTags(sidecars[sp])
      && SameOutside(r.1, sidecars, sp)
      && (StalePath(sidecars[sp], file) ==> r.1[sp] == AsDict(r.0))
      && (!StalePath(sidecars[sp], file) ==> r.1 == sidecars)
  {
    LoadSpec(files, sidecars, file, env);
    StoredTagsAsDict(Load(files, sidecars, file, env).value.0);
  }

  /** generate_new_tags' set expression, (tags - deleted) | added. */
  function NewTags(tags: set<string>, deleted: set<string>, added: set<string>): set<string>
  {
    (tags - deleted) + added
  }

  /** Applying the same change twice changes nothing more. */
  lemma NewTagsIdempotent(tags: set<string>, deleted: set<string>, added: set<string>)
    ensures NewTags(NewTags(tags, deleted, added), deleted, added) == NewTags(tags, deleted, added)
    ensures added <= NewTags(tags, deleted, added) && NewTags(tags, deleted, added) * deleted <= added
  {
  }

  /** The tag change of one pass: the tags setter, then write_file, both
      only when the set changed. */
  function Retagged(b: Record, sidecars: map<string, Dict>, file: string,
                    deleted: set<string>, added: set<string>, now: IsoTime): (Record, map<string, Dict>)
  {
    var tags := NewTags(b.tags, deleted, added);
    if tags == b.tags then (b, sidecars)
    else
      var c := WithTags(b, tags, now);
      (c, sidecars[SidecarPath(file) := AsDict(c)])
  }

  /** The record and its sidecar both hold the new tags afterwards, and no
      other sidecar changes. */
  lemma RetaggedSpec(b: Record, sidecars: map<string, Dict>, file: string,
                     deleted: set<string>, added: set<string>, now: IsoTime)
    requires FileTags(sidecars, file) == b.tags
    ensures var r := Retagged(b, sidecars, file, deleted, added, now);
      && r.0.tags == NewTags(b.tags, deleted, added) && FileTags(r.1, file) == r.0.tags
      && r.0.filepath == b.filepath
      && SameOutside(r.1, sidecars, SidecarPath(file))
      && (r.0.tags == b.tags ==> r == (b, sidecars))
      && (r.0.tags != b.tags ==> r.0.bijiMTime == now && r.1[SidecarPath(file)] == AsDict(r.0))
  {
    StoredTagsAsDict(WithTags(b, NewTags(b.tags, deleted, added), now));
  }

  /** One pass of update_tags_for_files' loop. */
  function RetagOne(w: World, file: string, deleted: set<string>, added: set<string>, env: Env): Outcome<World>
  {
    match Loaded(w.files, w.sidecars, file, env)
    case Err(e) => Outcome(w, Some(e))
    case Ok(loaded) =>
      var r := Retagged(loaded.0, loaded.1, file, deleted, added, env.now);
      var o := Synced(w.db, r.0, env.now);
      Outcome(World(w.files, r.1, o.state), o.error)
  }

  /** update_tags_for_files over the files in iteration order; an exception
      stops the loop. */
  function RetagAll(w: World, files: seq<string>, deleted: set<string>, added: set<string>, env: Env): Outcome<World>
    decreases |files|
  {
    if files == [] then Outcome(w, None)
    else
      var o := RetagOne(w, files[0], deleted, added, env);
      if o.error.Some? then o else RetagAll(o.state, files[1..], deleted, added, env)
  }

  /** What a pass does to the sidecars: the file's recorded tags become
      (old - deleted) | added, even when the index step then fails; only
      the file's own sidecar changes; a missing file raises before anything
      changes. */
  lemma RetagOneSidecars(w: World, file: string, deleted: set<string>, added: set<string>, env: Env)
    requires w.db.Valid()
    ensures var o := RetagOne(w, file, deleted, added, env);
      && o.state.files == w.files && o.state.db.Valid()
      && (file !in w.files <==> o == Outcome(w, Some(NotFound)))
      && (file in w.files ==> FileTags(o.state.sidecars, file) == NewTags(FileTags(w.sidecars, file), deleted, added))
      && SameOutside(o.state.sidecars, w.sidecars, SidecarPath(file))
  {
    LoadedSpec(w.files, w.sidecars, file, env);
    var l := Loaded(w.files, w.sidecars, file, env);
    if l.Ok? {
      RetaggedSpec(l.value.0, l.value.1, file, deleted, added, env.now);
      var r := Retagged(l.value.0, l.value.1, file, deleted, added, env.now);
      SyncedSpec(w.db, r.0, env.now);
    }
  }

  /** When the new tag set equals the recorded one and the sidecar names the
      right path, the pass writes no sidecar. */
  lemma RetagOneWritesOnlyOnChange(w: World, file: string, deleted: set<string>, added: set<string>, env: Env)
    requires NewTags(FileTags(w.sidecars, file), deleted, added) == FileTags(w.sidecars, file)
    requires SidecarPath(file) in w.sidecars ==> !StalePath(w.sidecars[SidecarPath(file)], file)
    ensures RetagOne(w, file, deleted, added, env).state.sidecars == w.sidecars
  {
    LoadedSpec(w.files, w.sidecars, file, env);
    var l := Loaded(w.files, w.sidecars, file, env);
    if l.Ok? {
      RetaggedSpec(l.value.0, l.value.1, file, deleted, added, env.now);
    }
  }

  /** Loading again after a pass gives back the record the pass wrote. */
  lemma Reload(files: map<string, Stat>, sidecars: map<string, Dict>, file: string,
               deleted: set<string>, added: set<string>, env: Env)
    requires Loaded(files, sidecars, file, env).Ok?
    ensures var l := Loaded(files, sidecars, file, env).value;
      var r := Retagged(l.0, l.1, file, deleted, added, env.now);
      Loaded(files, r.1, file, env) == Ok(r)
  {
    var sp := SidecarPath(file);
    var l := Loaded(files, sidecars, file, env).value;
    var r := Retagged(l.0, l.1, file, deleted, added, env.now);
    LoadedSpec(files, sidecars, file, env);
    RetaggedSpec(l.0, l.1, file, deleted, added, env.now);
    var start := Fresh(file, {}, files[file], env);
    if r.0.tags != l.0.tags {
      OverlayAsDict(start, r.0);
      AsDictNotStale(r.0);
    } else if sp in sidecars && StalePath(sidecars[sp], file) {
      OverlayAsDict(start, l.0);
      AsDictNotStale(l.0);
    }
  }

  /** Once the index step succeeded, repeating it changes nothing: the row
      is no longer older than the record. */
  lemma SyncedIdempotent(t: Tables, b: Record, now: IsoTime)
    requires t.Valid() && Synced(t, b, now).error == None
    ensures var s := Synced(t, b, now).state;
      Synced(s, b, now) == Outcome(s, None)
  {
    SyncedSpec(t, b, now);
    SyncedSpec(Synced(t, b, now).state, b, now);
  }

  /** A pass that succeeded leaves nothing for an identical second pass to
      do. */
  lemma RetagOneIdempotent(w: World, file: string, deleted: set<string>, added: set<string>, env: Env)
    requires w.db.Valid()
    requires RetagOne(w, file, deleted, added, env).error == None
    ensures var s := RetagOne(w, file, deleted, added, env).state;
      RetagOne(s, file, deleted, added, env) == Outcome(s, None)
  {
    LoadedSpec(w.files, w.sidecars, file, env);
    var l := Loaded(w.files, w.sidecars, file, env).value;
    var r := Retagged(l.0, l.1, file, deleted, added, env.now);
    RetaggedSpec(l.0, l.1, file, deleted, added, env.now);
    Reload(w.files, w.sidecars, file, deleted, added, env);
    NewTagsIdempotent(l.0.tags, deleted, added);
    assert Retagged(r.0, r.1, file, deleted, added, env.now) == r;
    SyncedIdempotent(w.db, r.0, env.now);
  }

  /** After a batch that raised nothing, every file of the batch records all
      added tags and no deleted tag that was not also added. */
  lemma {:induction false} RetagAllTags(w: World, files: seq<string>, deleted: set<string>, added: set<string>, env: Env)
    requires w.db.Valid()
    ensures var o := RetagAll(w, files, deleted, added, env);
      && o.state.db.Valid()
      && (o.error == None ==> forall f :: f in files ==>
            added <= FileTags(o.state.sidecars, f) && FileTags(o.state.sidecars, f) * deleted <= added)
    decreases |files|
  {
    if files != [] {
      var o1 := RetagOne(w, files[0], deleted, added, env);
      RetagOneSidecars(w, files[0], deleted, added, env);
      NewTagsIdempotent(FileTags(w.sidecars, files[0]), deleted, added);
      if o1.error.None? {
        var o := RetagAll(o1.state, files[1..], deleted, added, env);
        assert RetagAll(w, files, deleted, added, env) == o;
        RetagAllTags(o1.state, files[1..], deleted, added, env);
        if files[0] !in files[1..] {
          RetagAllFrame(o1.state, files[1..], deleted, added, env, files[0]);
        }
        assert forall f :: f in files <==> f == files[0] || f in files[1..];
      }
    }
  }

  /** A batch leaves the sidecar of a file outside it alone. */
  lemma {:induction false} RetagAllFrame(w: World, files: seq<string>, deleted: set<string>, added: set<string>, env: Env, g: string)
    requires w.db.Valid() && g !in files
    ensures FileTags(RetagAll(w, files, deleted, added, env).state.sidecars, g) == FileTags(w.sidecars, g)
    decreases |files|
  {
    if files != [] {
      var o1 := RetagOne(w, files[0], deleted, added, env);
      RetagOneFrame(w, files[0], deleted, added, env, g);
      if o1.error.None? {
        RetagAllFrame(o1.state, files[1..], deleted, added, env, g);
      }
    }
  }

  /** After a batch that raised nothing, each file of the batch records
      exactly its old tags less `deleted` plus `added`, however often it
      occurs in the batch. */
  lemma RetagAllSidecars(w: World, files: seq<string>, deleted: set<string>, added: set<string>, env: Env)
    requires w.db.Valid()
    ensures var o := RetagAll(w, files, deleted, added, env);
      o.error == None ==> forall f :: f in files ==>
        FileTags(o.state.sidecars, f) == NewTags(FileTags(w.sidecars, f), deleted, added)
  {
    forall f | f in files
      ensures var o := RetagAll(w, files, deleted, added, env);
        o.error == None ==> FileTags(o.state.sidecars, f) == NewTags(FileTags(w.sidecars, f), deleted, added)
    {
      RetagAllSidecarsAt(w, files, deleted, added, env, f);
    }
  }

  /** The same for one file of the batch. */
  lemma {:induction false} RetagAllSidecarsAt(w: World, files: seq<string>, deleted: set<string>, added: set<string>, env: Env, f: string)
    requires w.db.Valid() && f in files
    ensures var o := RetagAll(w, files, deleted, added, env);
      o.error == None ==> FileTags(o.state.sidecars, f) == NewTags(FileTags(w.sidecars, f), deleted, added)
    decreases |files|
  {
    if f in files[1..] {
      var o1 := RetagOne(w, files[0], deleted, added, env);
      RetagOneAt(w, files[0], deleted, added, env, f);
      if o1.error.None? {
        NewTagsIdempotent(FileTags(w.sidecars, f), deleted, added);
        RetagAllSidecarsAt(o1.state, files[1..], deleted, added, env, f);
      }
    } else {
      assert files == [files[0]] + files[1..];
      RetagAllFirstAt(w, files, deleted, added, env);
    }
  }

  /** The same for the first file of a batch that does not repeat it. */
  lemma RetagAllFirstAt(w: World, files: seq<string>, deleted: set<string>, added: set<string>, env: Env)
    requires w.db.Valid() && files != [] && files[0] !in files[1..]
    ensures var o := RetagAll(w, files, deleted, added, env);
      o.error == None ==> FileTags(o.state.sidecars, files[0]) == NewTags(FileTags(w.sidecars, files[0]), deleted, added)
  {
    var o1 := RetagOne(w, files[0], deleted, added, env);
    RetagOneSidecars(w, files[0], deleted, added, env);
    if o1.error.None? {
      RetagAllFrame(o1.state, files[1..], deleted, added, env, files[0]);
    }
  }

  /** What a pass that raised nothing leaves as the tags of any file. */
  lemma RetagOneAt(w: World, file: string, deleted: set<string>, added: set<string>, env: Env, f: string)
    requires w.db.Valid()
    ensures var o := RetagOne(w, file, deleted, added, env);
      o.error == None ==> (o.state.db.Valid()
        && FileTags(o.state.sidecars, f) == if f == file then NewTags(FileTags(w.sidecars, f), deleted, added) else FileTags(w.sidecars, f))
  {
    if f == file {
      RetagOneSidecars(w, file, deleted, added, env);
    } else {
      RetagOneFrame(w, file, deleted, added, env, f);
    }
  }

  /** A pass over one file leaves the sidecar of every other file alone. */
  lemma RetagOneFrame(w: World, file: string, deleted: set<string>, added: set<string>, env: Env, g: string)
    requires w.db.Valid() && g != file
    ensures var o := RetagOne(w, file, deleted, added, env);
      o.state.db.Valid() && FileTags(o.state.sidecars, g) == FileTags(w.sidecars, g)
  {
    RetagOneSidecars(w, file, deleted, added, env);
    SidecarPathInjective(g, file);
    var o := RetagOne(w, file, deleted, added, env);
    FileTagsOutside(o.state.sidecars, w.sidecars, SidecarPath(file), g);
  }

  lemma FileTagsOutside(a: map<string, Dict>, b: map<string, Dict>, sp: string, g: string)
    requires SameOutside(a, b, sp) && SidecarPath(g) != sp
    ensures FileTags(a, g) == FileTags(b, g)
  {
  }

  // ---------------------------------------------------------------------
  // The class

  function WorldOf(fs: FileSystem, db: BijiDatabase): World
    reads fs, db
  {
    World(fs.files, fs.sidecars, db.Snapshot())
  }

  class Biji {
    var filepath: string
    var filename: string
    var suffix: string
    var mimetype: Option<string>
    var filesize: int
    var updatedAt: string
    var backupAt: string
    var bijiCTime: string
    var bijiMTime: string
    var tags: set<string>
    var jsonPath: string

    function Value(): Record
      reads this
    {
      Record(filepath, filename, suffix, mimetype, filesize, updatedAt, backupAt, bijiCTime, bijiMTime, tags)
    }

    /** The field assignments of __init__, given what lstat() returned. */
    constructor Init(filepath: string, tags: set<string>, st: Stat, env: Env)
      ensures Value() == Fresh(filepath, tags, st, env) && jsonPath == SidecarPath(filepath)
    {
      var b := Fresh(filepath, tags, st, env);
      this.filepath := b.filepath;
      filename := b.filename;
      suffix := b.suffix;
      mimetype := b.mimetype;
      filesize := b.filesize;
      updatedAt := b.updatedAt;
      backupAt := b.backupAt;
      bijiCTime := b.bijiCTime;
      bijiMTime := b.bijiMTime;
      this.tags := b.tags;
      jsonPath := SidecarPath(filepath);
    }

    /** Biji(filepath, tags): lstat() raises for a missing file; otherwise
        the fields are derived and the index is connected, created first
        when its file is missing. */
    static method New(fs: FileSystem, db: BijiDatabase, filepath: string, tags: set<string>, env: Env)
      returns (r: Result<Biji>)
      requires db.Valid()
      modifies db
      ensures db.Valid() && db.Snapshot() == old(db.Snapshot())
      ensures r == Err(NotFound) <==> filepath !in fs.files
      ensures r.Err? ==> r == Err(NotFound) && unchanged(db)
      ensures r.Ok? ==> && fresh(r.value) && r.value.Value() == Fresh(filepath, tags, fs.files[filepath], env)
                        && r.value.jsonPath == SidecarPath(filepath) && db.connected && db.fileExists
    {
      var st := fs.Lstat(filepath);
      if st.Err? {
        return Err(NotFound);
      }
      var b := new Biji.Init(filepath, tags, st.value, env);
      var err := db.ConnectDb();
      if err.Some? {
        err := db.CreateDb();
        err := db.ConnectDb();
      }
      r := Ok(b);
    }

    /** The tags setter. */
    method SetTags(newTags: set<string>, now: IsoTime)
      modifies this
      ensures Value() == WithTags(old(Value()), newTags, now) && jsonPath == old(jsonPath)
    {
      tags := newTags;
      bijiMTime := now;
    }

    /** biji.__dict__['_' + field] = value. */
    method Assign(f: Field, v: JsonValue)
      modifies this
      ensures Value() == SetField(old(Value()), f, v) && jsonPath == old(jsonPath)
    {
      match f
      case FilepathKey => if v.JStr? { filepath := v.s; }
      case FilenameKey => if v.JStr? { filename := v.s; }
      case SuffixKey => if v.JStr? { suffix := v.s; }
      case MimetypeKey =>
        if v.JStr? { mimetype := Some(v.s); } else if v.JNull? { mimetype := None; }
      case FilesizeKey => if v.JInt? { filesize := v.i; }
      case UpdatedAtKey => if v.JStr? { updatedAt := v.s; }
      case BackupAtKey => if v.JStr? { backupAt := v.s; }
      case BijiCTimeKey => if v.JStr? { bijiCTime := v.s; }
      case BijiMTimeKey => if v.JStr? { bijiMTime := v.s; }
      case TagsKey => if v.JArray? { tags := v.items; }
    }

    /** from_file. */
    static method FromFile(fs: FileSystem, db: BijiDatabase, filepath: string, env: Env)
      returns (r: Result<Biji>)
      requires fs.Valid() && db.Valid()
      modifies fs, db
      ensures fs.Valid() && db.Valid() && db.Snapshot() == old(db.Snapshot()) && fs.files == old(fs.files)
      ensures var l := Load(old(fs.files), old(fs.sidecars), filepath, env);
        && (r.Err? <==> l.Err?)
        && (r.Err? ==> r.error == l.error && unchanged(fs, db))
        && (r.Ok? ==> && fresh(r.value) && r.value.Value() == l.value.0 && fs.sidecars == l.value.1
                      && r.value.jsonPath == SidecarPath(filepath) && db.connected && db.fileExists)
    {
      ghost var l := Load(fs.files, fs.sidecars, filepath, env);
      var d := fs.ReadSidecar(SidecarPath(filepath));
      if d.Err? {
        return Err(NotFound);
      }
      var nb := New(fs, db, filepath, {}, env);
      if nb.Err? {
        return Err(NotFound);
      }
      var b := nb.value;
      ghost var start := b.Value();
      b.OverlayWith(d.value);
      ghost var overlaid := Overlay(start, d.value);
      assert b.Value() == overlaid;
      // biji._filepath != filepath, with _filepath holding the stored value
      if StalePath(d.value, filepath) {
        assert l == Ok((overlaid.(filepath := filepath), fs.sidecars[SidecarPath(filepath) := AsDict(overlaid.(filepath := filepath))]));
        b.Relocate(fs, filepath);
      } else {
        assert l == Ok((overlaid, fs.sidecars));
      }
      r := Ok(b);
    }

    /** from_file's repair of a stale sidecar: the record takes the path
        it was loaded from and is written back. */
    method Relocate(fs: FileSystem, path: string)
      requires fs.Valid() && jsonPath == SidecarPath(path)
      modifies this, fs
      ensures Value() == old(Value()).(filepath := path) && jsonPath == old(jsonPath)
      ensures fs.Valid() && fs.files == old(fs.files)
      ensures fs.sidecars == old(fs.sidecars)[jsonPath := AsDict(Value())]
    {
      filepath := path;
      WriteFile(fs);
    }

    /** from_file's loop: every recognised key of the sidecar is copied
        onto its field. */
    method OverlayWith(d: Dict)
      modifies this
      ensures Value() == Overlay(old(Value()), d) && jsonPath == old(jsonPath)
    {
      ghost var start := Value();
      for i := 0 to |Fields|
        invariant OverlayFrom(Value(), d, i) == Overlay(start, d)
        invariant jsonPath == old(jsonPath)
      {
        var f := Fields[i];
        if Name(f) in d {
          Assign(f, d[Name(f)]);
        }
      }
    }

    /** write_file: the sidecar holds _asdict(). */
    method WriteFile(fs: FileSystem)
      requires fs.Valid() && jsonPath == SidecarPath(filepath)
      modifies fs
      ensures fs.Valid() && fs.files == old(fs.files)
      ensures fs.sidecars == old(fs.sidecars)[jsonPath := AsDict(Value())]
    {
      fs.WriteSidecar(jsonPath, AsDict(Value()));
    }

    /** get_mtime_from_db. */
    method GetMTimeFromDb(db: BijiDatabase) returns (m: string)
      requires db.Valid() && db.connected
      ensures m == db.Snapshot().MTime(filepath)
    {
      m := db.GetMTime(filepath);
    }

    /** insert_biji_to_db. */
    method InsertBijiToDb(db: BijiDatabase) returns (err: Option<Error>)
      requires db.Valid() && db.connected
      modifies db
      ensures db.Valid() && db.connected && db.fileExists
      ensures var r := old(db.Snapshot()).InsertBiji(ToRow(Value()));
        && (err == None <==> r.Ok?)
        && (err != None ==> err == Some(r.error) && db.Snapshot() == old(db.Snapshot()))
        && (r.Ok? ==> db.Snapshot() == r.value)
    {
      var ok := db.InsertToBijis(ToRow(Value()));
      err := if ok then None else Some(Integrity);
    }

    /** insert_tags_to_db: insert_to_tags, then the links. */
    method InsertTagsToDb(db: BijiDatabase, now: IsoTime) returns (err: Option<Error>)
      requires db.Valid() && db.connected
      modifies db
      ensures db.Valid() && db.connected && db.fileExists
      ensures Outcome(db.Snapshot(), err) == TagsInserted(old(db.Snapshot()), Value(), now)
    {
      db.InsertToTags(tags, now);
      InsertTagsSpec(old(db.Snapshot()), tags, now);
      err := LinkTags(db, now);
    }

    /** insert_tags_to_db's loop: insert_to_tag_biji for each tag, which
        the foreign key rejects when the file has no row. */
    method LinkTags(db: BijiDatabase, now: IsoTime) returns (err: Option<Error>)
      requires db.Valid() && db.connected && tags <= db.tags.Keys
      modifies db
      ensures db.Valid() && db.connected && db.fileExists
      ensures var t := old(db.Snapshot());
        Outcome(db.Snapshot(), err)
        == if tags != {} && NoCase(filepath) !in t.bijis then Outcome(t, Some(Integrity))
           else Outcome(Linked(t, tags, filepath, now), None)
    {
      ghost var u := db.Snapshot();
      ghost var done: set<string> := {};
      var rest := tags;
      LinkedNone(u, filepath, now);
      while rest != {}
        invariant done !! rest && done + rest == tags
        invariant db.Valid() && db.connected && db.fileExists
        invariant db.Snapshot() == Linked(u, done, filepath, now)
        invariant db.bijis == u.bijis && db.tags.Keys == u.tags.Keys
        invariant NoCase(filepath) !in u.bijis ==> done == {}
        decreases rest
      {
        var tag :| tag in rest;
        var ok := db.InsertToTagBiji(tag, filepath, now);
        if !ok {
          return Some(Integrity);
        }
        LinkedStep(u, done, tag, filepath, now);
        done := done + {tag};
        rest := rest - {tag};
      }
      err := None;
    }

    /** insert_biji_and_tags_to_db. */
    method InsertBijiAndTagsToDb(db: BijiDatabase, now: IsoTime) returns (err: Option<Error>)
      requires db.Valid() && db.connected
      modifies db
      ensures db.Valid() && db.connected && db.fileExists
      ensures Outcome(db.Snapshot(), err) == BijiAndTagsInserted(old(db.Snapshot()), Value(), now)
    {
      err := InsertBijiToDb(db);
      if err.Some? {
        return;
      }
      err := InsertTagsToDb(db, now);
    }

    /** update_biji_to_db. */
    method UpdateBijiToDb(db: BijiDatabase) returns (err: Option<Error>)
      requires db.Valid() && db.connected
      modifies db
      ensures db.Valid() && db.connected && db.fileExists
      ensures var r := old(db.Snapshot()).UpdateBiji(ToRow(Value()));
        && (err == None <==> r.Ok?)
        && (err != None ==> err == Some(r.error) && db.Snapshot() == old(db.Snapshot()))
        && (r.Ok? ==> db.Snapshot() == r.value)
    {
      var ok := db.UpdateBiji(ToRow(Value()));
      err := if ok then None else Some(Integrity);
    }

    /** update_tags_to_db. */
    method UpdateTagsToDb(db: BijiDatabase, now: IsoTime) returns (err: Option<Error>)
      requires db.Valid() && db.connected
      modifies db
      ensures db.Valid() && db.connected && db.fileExists
      ensures Outcome(db.Snapshot(), err) == TagsReplaced(old(db.Snapshot()), Value(), now)
    {
      var oldTags := db.GetTags(filepath);
      ghost var t := db.Snapshot();
      assert oldTags == t.TagsOf(filepath) by {
        forall x ensures x in oldTags <==> x in t.TagsOf(filepath) {
          if x in t.TagsOf(filepath) {
            var l :| l in t.links && l.filepath == filepath && l.tag == x;
          }
        }
      }
      ghost var done: set<string> := {};
      var rest := oldTags;
      UnlinkedNone(t, filepath, now);
      while rest != {}
        invariant done !! rest && done + rest == oldTags
        invariant db.Valid() && db.connected && db.fileExists
        invariant db.Snapshot() == Unlinked(t, done, filepath, now)
        decreases rest
      {
        var tag :| tag in rest;
        db.UnlinkTag(tag, filepath, now);
        UnlinkedStep(t, done, tag, filepath, now);
        done := done + {tag};
        rest := rest - {tag};
      }
      err := InsertTagsToDb(db, now);
    }

    /** update_biji_and_tags_to_db. */
    method UpdateBijiAndTagsToDb(db: BijiDatabase, now: IsoTime) returns (err: Option<Error>)
      requires db.Valid() && db.connected
      modifies db
      ensures db.Valid() && db.connected && db.fileExists
      ensures Outcome(db.Snapshot(), err) == BijiAndTagsUpdated(old(db.Snapshot()), Value(), now)
    {
      err := UpdateBijiToDb(db);
      if err.Some? {
        return;
      }
      err := UpdateTagsToDb(db, now);
    }

    /** The body of update_tags_for_files' loop for one file. */
    static method RetagFile(fs: FileSystem, db: BijiDatabase, file: string,
                            deleted: set<string>, added: set<string>, env: Env)
      returns (err: Option<Error>)
      requires fs.Valid() && db.Valid()
      modifies fs, db
      ensures fs.Valid() && db.Valid()
      ensures Outcome(WorldOf(fs, db), err) == RetagOne(old(WorldOf(fs, db)), file, deleted, added, env)
      ensures db.connected == (old(db.connected) || file in old(fs.files))
      ensures db.fileExists == (old(db.fileExists) || file in old(fs.files))
    {
      ghost var w0 := WorldOf(fs, db);
      LoadedSpec(w0.files, w0.sidecars, file, env);
      var r := Open(fs, db, file, env);
      if r.Err? {
        return Some(r.error);
      }
      ghost var l := Loaded(w0.files, w0.sidecars, file, env).value;
      var biji := r.value;
      biji.ChangeTags(fs, deleted, added, env.now);
      assert (biji.Value(), fs.sidecars) == Retagged(l.0, l.1, file, deleted, added, env.now);
      err := biji.SyncToDb(db, env.now);
    }

    /** The Biji of one pass: from_file when the sidecar exists, Biji(file)
        otherwise. */
    static method Open(fs: FileSystem, db: BijiDatabase, file: string, env: Env) returns (r: Result<Biji>)
      requires fs.Valid() && db.Valid()
      modifies fs, db
      ensures fs.Valid() && db.Valid() && db.Snapshot() == old(db.Snapshot()) && fs.files == old(fs.files)
      ensures var l := Loaded(old(fs.files), old(fs.sidecars), file, env);
        && (r.Err? <==> l.Err?)
        && (r.Err? ==> r.error == l.error && fs.sidecars == old(fs.sidecars)
                       && db.connected == old(db.connected) && db.fileExists == old(db.fileExists))
        && (r.Ok? ==> && fresh(r.value) && r.value.Value() == l.value.0 && fs.sidecars == l.value.1
                      && r.value.jsonPath == SidecarPath(file) && db.connected && db.fileExists)
    {
      var hasSidecar := fs.SidecarExists(SidecarPath(file));
      if hasSidecar {
        r := FromFile(fs, db, file, env);
      } else {
        r := New(fs, db, file, {}, env);
      }
    }

    /** The tag change of one pass: the new set is (tags - deleted) | added,
        and the setter and write_file run only when it differs. */
    method ChangeTags(fs: FileSystem, deleted: set<string>, added: set<string>, now: IsoTime)
      requires fs.Valid() && jsonPath == SidecarPath(filepath)
      modifies this, fs
      ensures fs.Valid() && fs.files == old(fs.files) && jsonPath == old(jsonPath)
      ensures (Value(), fs.sidecars) == Retagged(old(Value()), old(fs.sidecars), filepath, deleted, added, now)
    {
      var tags := NewTags(this.tags, deleted, added);
      if tags != this.tags {
        SetTags(tags, now);
        WriteFile(fs);
      }
    }

    /** The index step of update_tags_for_files' loop: get_mtime_from_db,
        then an insert when the index has no row and an update when the
        record is newer than the row. */
    method SyncToDb(db: BijiDatabase, now: IsoTime) returns (err: Option<Error>)
      requires db.Valid() && db.connected
      modifies db
      ensures db.Valid() && db.connected && db.fileExists
      ensures Outcome(db.Snapshot(), err) == Synced(old(db.Snapshot()), Value(), now)
    {
      var m := GetMTimeFromDb(db);
      if m == "" {
        err := InsertBijiAndTagsToDb(db, now);
      } else if Less(m, bijiMTime) {
        err := UpdateBijiAndTagsToDb(db, now);
      } else {
        err := None;
      }
    }

    /** update_tags_for_files: the files in the set's iteration order. */
    static method UpdateTagsForFiles(fs: FileSystem, db: BijiDatabase, files: seq<string>,
                                     deleted: set<string>, added: set<string>, env: Env)
      returns (err: Option<Error>)
      requires fs.Valid() && db.Valid()
      modifies fs, db
      ensures fs.Valid() && db.Valid()
      ensures Outcome(WorldOf(fs, db), err) == RetagAll(old(WorldOf(fs, db)), files, deleted, added, env)
    {
      var i := 0;
      while i < |files|
        invariant i <= |files|
        invariant fs.Valid() && db.Valid()
        invariant RetagAll(old(WorldOf(fs, db)), files, deleted, added, env)
                  == RetagAll(WorldOf(fs, db), files[i..], deleted, added, env)
      {
        assert files[i..][1..] == files[i + 1..];
        err := RetagFile(fs, db, files[i], deleted, added, env);
        if err.Some? {
          return;
        }
        i := i + 1;
      }
      err := None;
    }
  }

  /** The links added one tag at a time. */
  lemma LinkedStep(t: Tables, S: set<string>, x: string, fp: string, now: IsoTime)
    requires x !in S && x in t.tags && NoCase(fp) in t.bijis
    ensures Linked(t, S, fp, now).AddLink(x, fp, now) == Ok(Linked(t, S + {x}, fp, now))
  {
    var u := Linked(t, S, fp, now);
    var k := Link(x, fp);
    BumpedStep(t.links, S, x, fp);
    TouchedStep(t.tags, S, x, now);
    assert u.AddLink(x, fp, now) == Ok(Tables(u.bijis, u.tags[x := now], u.links[k := Get(u.links, k) + 1]));
  }

  lemma TouchedStep(tags: map<string, IsoTime>, S: set<string>, x: string, now: IsoTime)
    requires x in tags
    ensures Touched(tags, S, now)[x := now] == Touched(tags, S + {x}, now)
  {
  }

  lemma BumpedStep(bag: map<Link, nat>, S: set<string>, x: string, fp: string)
    requires x !in S
    ensures var u := Bumped(bag, S, fp); var k := Link(x, fp);
      u[k := Get(u, k) + 1] == Bumped(bag, S + {x}, fp)
  {
    var u := Bumped(bag, S, fp);
    var v := Bumped(bag, S + {x}, fp);
    var k := Link(x, fp);
    var w := u[k := Get(u, k) + 1];
    forall l: Link
      ensures (l in w <==> l in v) && Get(w, l) == Get(v, l)
    {
      BumpedAt(bag, S, fp, l);
      BumpedAt(bag, S + {x}, fp, l);
    }
    forall l | l in w
      ensures w[l] == v[l]
    {
      assert w[l] == Get(w, l) && v[l] == Get(v, l);
    }
  }

  lemma LinkedNone(t: Tables, fp: string, now: IsoTime)
    ensures Linked(t, {}, fp, now) == t
  {
    var u := Linked(t, {}, fp, now);
    assert u.links == t.links;
    assert u.tags == t.tags;
  }

  lemma UnlinkedNone(t: Tables, fp: string, now: IsoTime)
    ensures Unlinked(t, {}, fp, now) == t
  {
    var u := Unlinked(t, {}, fp, now);
    assert u.links == t.links;
    assert u.tags == t.tags;
  }

  /** The links removed one tag at a time. */
  lemma UnlinkedStep(t: Tables, S: set<string>, x: string, fp: string, now: IsoTime)
    requires x !in S
    ensures Unlinked(t, S, fp, now).Unlink(x, fp, now) == Unlinked(t, S + {x}, fp, now)
  {
    var u := Unlinked(t, S, fp, now);
    var v := Unlinked(t, S + {x}, fp, now);
    var w := u.Unlink(x, fp, now);
    assert w.links == v.links;
    assert w.tags == v.tags;
  }
}
