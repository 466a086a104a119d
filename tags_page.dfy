/** The wizard's second page: the tags the chosen files share, the tags
    only some of them carry, and the user's edits of the shared tags. */
module Tags {
  import opened Basics
  import opened Storage
  import opened Database
  import opened BijiRecord
  import opened Helpers
  import opened AddFile
  import Scanner

  // ---------------------------------------------------------------------
  // What initializePage computes

  /** tag_set_list[0].intersection(*tag_set_list[1:]), and set() for no
      files. */
  function Common(sets: seq<set<string>>): set<string>
    decreases |sets|
  {
    if |sets| == 0 then {}
    else if |sets| == 1 then sets[0]
    else sets[0] * Common(sets[1..])
  }

  /** tag_set_list[0].union(*tag_set_list[1:]), and set() for no files. */
  function Union(sets: seq<set<string>>): set<string>
    decreases |sets|
  {
    if |sets| == 0 then {} else sets[0] + Union(sets[1..])
  }

  /** tag_set_list: the tags of each file's sidecar, in the files' order;
      a file without a sidecar contributes no tags. */
  function TagSets(sidecars: map<string, Dict>, files: seq<string>): (r: seq<set<string>>)
    ensures |r| == |files|
  {
    seq(|files|, i requires 0 <= i < |files| => FileTags(sidecars, files[i]))
  }

  /** Every tag some file of `files` carries. */
  function AnyTags(sidecars: map<string, Dict>, files: set<string>): set<string>
  {
    set f, x | f in files && x in FileTags(sidecars, f) :: x
  }

  /** The tags every file of a non-empty `files` carries. */
  function SharedTags(sidecars: map<string, Dict>, files: set<string>): set<string>
  {
    set x | x in AnyTags(sidecars, files) && forall f :: f in files ==> x in FileTags(sidecars, f)
  }

  /** The intersection holds exactly what every set holds, and nothing
      when there is no set. */
  lemma {:induction false} CommonSpec(sets: seq<set<string>>)
    ensures forall x :: x in Common(sets) <==> |sets| > 0 && forall i :: 0 <= i < |sets| ==> x in sets[i]
    decreases |sets|
  {
    if |sets| > 1 {
      CommonSpec(sets[1..]);
      forall x | x in sets[0] && (forall i :: 0 <= i < |sets| - 1 ==> x in sets[1..][i])
        ensures forall i :: 0 <= i < |sets| ==> x in sets[i]
      {
        forall i | 1 <= i < |sets|
          ensures x in sets[i]
        {
          assert sets[i] == sets[1..][i - 1];
        }
      }
    }
  }

  /** The union holds exactly what some set holds. */
  lemma {:induction false} UnionSpec(sets: seq<set<string>>)
    ensures forall x :: x in Union(sets) <==> exists i :: 0 <= i < |sets| && x in sets[i]
    decreases |sets|
  {
    if |sets| > 0 {
      UnionSpec(sets[1..]);
      forall x | x in Union(sets)
        ensures exists i :: 0 <= i < |sets| && x in sets[i]
      {
        if x !in sets[0] {
          assert x in Union(sets[1..]);
          var i :| 0 <= i < |sets[1..]| && x in sets[1..][i];
          assert x in sets[i + 1];
        }
      }
      forall x, i | 0 <= i < |sets| && x in sets[i]
        ensures x in Union(sets)
      {
        if i > 0 {
          assert x in sets[1..][i - 1];
        }
      }
    }
  }

  /** Over the files in any iteration order, the intersection of their tag
      sets is the tags all of them share, and the union the tags any of
      them carries. */
  lemma TagSetsOfFiles(sidecars: map<string, Dict>, order: seq<string>, files: set<string>)
    requires forall x :: x in order <==> x in files
    ensures Common(TagSets(sidecars, order)) == (if files == {} then {} else SharedTags(sidecars, files))
    ensures Union(TagSets(sidecars, order)) == AnyTags(sidecars, files)
  {
    var sets := TagSets(sidecars, order);
    CommonSpec(sets);
    UnionSpec(sets);
    forall x
      ensures x in Union(sets) <==> x in AnyTags(sidecars, files)
    {
      if x in Union(sets) {
        var i :| 0 <= i < |sets| && x in sets[i];
        assert order[i] in files;
      }
      if x in AnyTags(sidecars, files) {
        var f :| f in files && x in FileTags(sidecars, f);
        var i :| 0 <= i < |order| && order[i] == f;
        assert x in sets[i];
      }
    }
    if files != {} {
      forall x
        ensures x in Common(sets) <==> x in SharedTags(sidecars, files)
      {
        if x in Common(sets) {
          forall f | f in files
            ensures x in FileTags(sidecars, f)
          {
            var i :| 0 <= i < |order| && order[i] == f;
            assert x in sets[i];
          }
          var f :| f in files;
          assert x in AnyTags(sidecars, files);
        }
        if x in SharedTags(sidecars, files) {
          forall i | 0 <= i < |sets|
            ensures x in sets[i]
          {
            assert order[i] in files;
          }
          var f :| f in files;
          var i :| 0 <= i < |order| && order[i] == f;
        }
      }
    } else {
      assert forall i :: 0 <= i < |order| ==> order[i] in files;
    }
  }

  /** What the three tag lists show after initializePage, for the files'
      recorded tags and the tags deleted earlier on this page: the shared
      tags, the tags only some files carry, and the earlier deletions that
      are neither. The three are pairwise disjoint. */
  lemma ShownDisjoint(sidecars: map<string, Dict>, files: set<string>, recentlyDeleted: set<string>)
    ensures var common := if files == {} then {} else SharedTags(sidecars, files);
      var recommend := AnyTags(sidecars, files) - common;
      var recently := recentlyDeleted - recommend - common;
      && common <= AnyTags(sidecars, files)
      && common * recommend == {} && recently * recommend == {} && recently * common == {}
      && (forall x :: x in recommend <==>
            (exists f :: f in files && x in FileTags(sidecars, f)) && (exists f :: f in files && x !in FileTags(sidecars, f)))
  {
    var common := if files == {} then {} else SharedTags(sidecars, files);
    forall x | x in AnyTags(sidecars, files)
      ensures exists f :: f in files && x in FileTags(sidecars, f)
    {
      var f, y :| f in files && y in FileTags(sidecars, f) && x == y;
    }
    forall x | exists f :: f in files && x in FileTags(sidecars, f)
      ensures x in AnyTags(sidecars, files)
    {
      var f :| f in files && x in FileTags(sidecars, f);
    }
  }

  /** The stripped texts of all rows: what update_new_common_tags collects. */
  function StrippedAll(items: seq<Item>): set<string>
  {
    set t | t in TextsOf(items) :: Strip(t)
  }

  /** `for file in self.files`, the second time: a file with a sidecar
      contributes from_file's tags, one without a sidecar none. from_file
      raises for a sidecar whose file is missing, which ends the loop. */
  method TagSetsOf(fs: FileSystem, db: BijiDatabase, files: seq<string>, env: Env)
    returns (err: Option<Error>, sets: seq<set<string>>)
    requires fs.Valid() && db.Valid()
    modifies fs, db
    ensures fs.Valid() && db.Valid() && fs.files == old(fs.files) && db.Snapshot() == old(db.Snapshot())
    ensures forall f :: FileTags(fs.sidecars, f) == FileTags(old(fs.sidecars), f)
    ensures err == None <==> forall f :: f in files && SidecarPath(f) in old(fs.sidecars) ==> f in fs.files
    ensures err == None ==> sets == TagSets(old(fs.sidecars), files)
  {
    ghost var sidecars0 := fs.sidecars;
    sets := [];
    var i := 0;
    while i < |files|
      invariant i <= |files|
      invariant fs.Valid() && db.Valid() && fs.files == old(fs.files) && db.Snapshot() == old(db.Snapshot())
      invariant forall f :: FileTags(fs.sidecars, f) == FileTags(sidecars0, f)
      invariant fs.sidecars.Keys == sidecars0.Keys
      invariant forall f :: f in files[..i] && SidecarPath(f) in sidecars0 ==> f in fs.files
      invariant sets == TagSets(sidecars0, files[..i])
    {
      var r := TagSetOf(fs, db, files[i], env);
      if r.Err? {
        return Some(r.error), sets;
      }
      assert files[..i + 1] == files[..i] + [files[i]];
      sets := sets + [r.value];
      i := i + 1;
    }
    assert files[..i] == files;
    err := None;
  }

  /** Loading a file whose sidecar exists fails only for a missing file,
      reads the sidecar's tags and changes no sidecar's tags. */
  lemma LoadKeepsTags(files: map<string, Stat>, sidecars: map<string, Dict>, file: string, env: Env)
    requires SidecarPath(file) in sidecars
    ensures var r := Load(files, sidecars, file, env);
      && (r.Err? <==> file !in files)
      && (r.Ok? ==> && r.value.0.tags == FileTags(sidecars, file) && r.value.1.Keys == sidecars.Keys
                    && forall f :: FileTags(r.value.1, f) == FileTags(sidecars, f))
  {
    LoadSpec(files, sidecars, file, env);
    if file in files {
      forall f
        ensures FileTags(Load(files, sidecars, file, env).value.1, f) == FileTags(sidecars, f)
      {
        Scanner.LoadKeepsSidecars(files, sidecars, file, env, f);
      }
    }
  }

  /** One pass of that loop. */
  method TagSetOf(fs: FileSystem, db: BijiDatabase, file: string, env: Env) returns (r: Result<set<string>>)
    requires fs.Valid() && db.Valid()
    modifies fs, db
    ensures fs.Valid() && db.Valid() && fs.files == old(fs.files) && db.Snapshot() == old(db.Snapshot())
    ensures forall f :: FileTags(fs.sidecars, f) == FileTags(old(fs.sidecars), f)
    ensures fs.sidecars.Keys == old(fs.sidecars.Keys)
    ensures r.Err? <==> SidecarPath(file) in old(fs.sidecars) && file !in fs.files
    ensures r.Ok? ==> r.value == FileTags(old(fs.sidecars), file)
  {
    var present := fs.SidecarExists(SidecarPath(file));
    if !present {
      return Ok({});
    }
    LoadKeepsTags(fs.files, fs.sidecars, file, env);
    var b := Biji.FromFile(fs, db, file, env);
    if b.Err? {
      return Err(b.error);
    }
    r := Ok(b.value.tags);
  }

  // ---------------------------------------------------------------------
  // The page

  /** The file list as initializePage fills it: one unchecked row per
      path, once each for a set and in the list's own order for a list. */
  ghost predicate FileRows(items: seq<Item>, v: FileValue)
  {
    match v
    case FileSet(s) => Lists(items, s)
    case FileList(l) => items == Rows(l)
  }

  class TagsPage {
    /** The add-file page's `files`, handed over by the wizard, and the
        value seen by the last initializePage that got past its check. */
    var files: FileValue
    var oldFiles: FileValue
    /** common_tags, which no method assigns before initializePage gets
        past its first check. */
    var commonTags: Option<set<string>>
    var newCommonTags: set<string>
    var recentlyDeletedTags: set<string>
    const fileList: ListWidget
    const tagList: ListWidget
    const recommendTagsList: ListWidget
    const allTagsList: ListWidget

    /** The four lists are distinct widgets. */
    ghost predicate Valid()
      reads this
    {
      && fileList != tagList && fileList != recommendTagsList && fileList != allTagsList
      && tagList != recommendTagsList && tagList != allTagsList && recommendTagsList != allTagsList
    }

    constructor ()
      ensures Valid()
      ensures files == FileSet({}) && oldFiles == FileSet({}) && commonTags == None && newCommonTags == {} && recentlyDeletedTags == {}
      ensures fileList.items == [] && tagList.items == [] && recommendTagsList.items == [] && allTagsList.items == []
    {
      files, oldFiles, commonTags, newCommonTags, recentlyDeletedTags := FileSet({}), FileSet({}), None, {}, {};
      fileList := new ListWidget();
      tagList := new ListWidget();
      recommendTagsList := new ListWidget();
      allTagsList := new ListWidget();
    }

    /** The page as initializePage leaves it, from the sidecars it read and
        the tags deleted earlier: the files once each; the tags they all
        share (none for no files) as unchecked rows; below the recently
        deleted tags that are neither shared nor recommended, the tags only
        some of the files carry; and get_all_tags_desc's tags in order. */
    ghost predicate Shows(sidecars: map<string, Dict>, recentlyDeleted: set<string>, allTagsDesc: seq<string>)
      reads this, fileList, tagList, recommendTagsList, allTagsList
    {
      var paths := Paths(files);
      var common := if paths == {} then {} else SharedTags(sidecars, paths);
      var recommend := AnyTags(sidecars, paths) - common;
      && commonTags == Some(common) && newCommonTags == {}
      && FileRows(fileList.items, files)
      && Lists(tagList.items, common)
      && (exists k :: 0 <= k <= |recommendTagsList.items|
            && Lists(recommendTagsList.items[..k], recentlyDeleted - recommend - common)
            && Lists(recommendTagsList.items[k..], recommend))
      && allTagsList.items == Rows(allTagsDesc)
    }

    /** initializePage. The tags of get_all_tags_desc, read from the index,
        come in as `allTagsDesc`. Nothing happens when `files` equals the
        value seen last time, as Python compares them: after the add-file
        page's Del, `files` is a list and never equals the set seen
        before, so the page is rebuilt even for the same paths. Otherwise
        the page is rebuilt, unless from_file raises for a sidecar whose
        file is missing. */
    method InitializePage(fs: FileSystem, db: BijiDatabase, allTagsDesc: seq<string>, env: Env)
      returns (err: Option<Error>)
      requires Valid() && fs.Valid() && db.Valid()
      modifies this`oldFiles, this`commonTags, this`newCommonTags, fs, db,
               fileList, tagList, recommendTagsList, allTagsList
      ensures fs.Valid() && db.Valid() && fs.files == old(fs.files) && db.Snapshot() == old(db.Snapshot())
      ensures forall f :: FileTags(fs.sidecars, f) == FileTags(old(fs.sidecars), f)
      ensures old(oldFiles) == files ==>
        && err == None && fs.sidecars == old(fs.sidecars)
        && unchanged(this, fileList, tagList, recommendTagsList, allTagsList)
      ensures old(oldFiles) != files ==>
        && oldFiles == files
        && (err == None <==> forall f :: f in Paths(files) && SidecarPath(f) in old(fs.sidecars) ==> f in fs.files)
        && (err == None ==> Shows(old(fs.sidecars), recentlyDeletedTags, allTagsDesc))
    {
      if oldFiles == files {
        return None;
      }
      oldFiles := files;
      ResetLists();
      var order := FillFileList();
      ghost var sidecars0 := fs.sidecars;
      var sets;
      err, sets := TagSetsOf(fs, db, order, env);
      if err.Some? {
        return;
      }
      TagSetsOfFiles(sidecars0, order, Paths(files));
      var common := Common(sets);
      var all := Union(sets);
      commonTags := Some(common);
      FillTagLists(common, all - common, recentlyDeletedTags - (all - common) - common);
      AppendSeq(allTagsList, allTagsDesc);
      assert allTagsList.items == Rows(allTagsDesc);
    }

    /** The four lists cleared and the edited common tags forgotten. */
    method ResetLists()
      requires Valid()
      modifies this`newCommonTags, fileList, tagList, recommendTagsList, allTagsList
      ensures newCommonTags == {}
      ensures fileList.items == [] && tagList.items == [] && recommendTagsList.items == [] && allTagsList.items == []
    {
      fileList.Clear();
      tagList.Clear();
      recommendTagsList.Clear();
      newCommonTags := {};
      allTagsList.Clear();
    }

    /** The files as unchecked rows, in the order the loop over them
        visits them. */
    method FillFileList() returns (order: seq<string>)
      requires fileList.items == []
      modifies fileList
      ensures Visits(order, files) && (forall t :: t in order <==> t in Paths(files))
      ensures FileRows(fileList.items, files)
    {
      match files
      case FileSet(s) =>
        order := AppendAll(fileList, s);
        assert fileList.items == Rows(order);
        RowsOfSet(order, s);
      case FileList(l) =>
        AppendSeq(fileList, l);
        order := l;
    }

    /** The common and recommended lists filled in, then the recently
        deleted tags inserted on top of the recommendations. */
    method FillTagLists(common: set<string>, recommend: set<string>, recently: set<string>)
      requires Valid() && tagList.items == [] && recommendTagsList.items == []
      modifies tagList, recommendTagsList
      ensures Lists(tagList.items, common)
      ensures exists k :: (0 <= k <= |recommendTagsList.items|
        && Lists(recommendTagsList.items[..k], recently) && Lists(recommendTagsList.items[k..], recommend))
    {
      var o1 := AppendAll(tagList, common);
      assert tagList.items == Rows(o1);
      RowsOfSet(o1, common);
      var o2 := AppendAll(recommendTagsList, recommend);
      assert recommendTagsList.items == Rows(o2);
      RowsOfSet(o2, recommend);
      var o3 := InsertAll(recommendTagsList, recently);
      RowsOfSet(o3, recently);
      var k := |o3|;
      assert recommendTagsList.items[..k] == Rows(o3);
      assert recommendTagsList.items[k..] == Rows(o2);
    }

    /** update_new_common_tags: the stripped texts of the common list, so
        none of them has surrounding whitespace. */
    method UpdateNewCommonTags()
      modifies this`newCommonTags
      ensures newCommonTags == StrippedAll(tagList.items)
      ensures forall x :: x in newCommonTags ==> Strip(x) == x
    {
      newCommonTags := {};
      var i := 0;
      while i < |tagList.items|
        invariant i <= |tagList.items|
        invariant newCommonTags == StrippedAll(tagList.items[..i])
      {
        assert TextsOf(tagList.items[..i + 1]) == TextsOf(tagList.items[..i]) + [tagList.items[i].text];
        newCommonTags := newCommonTags + {Strip(tagList.items[i].text)};
        i := i + 1;
      }
      assert tagList.items[..i] == tagList.items;
      forall x | x in newCommonTags
        ensures Strip(x) == x
      {
        var t :| t in TextsOf(tagList.items) && x == Strip(t);
        StripIdempotent(t);
      }
    }

    /** validatePage: always accepted. */
    method ValidatePage() returns (accepted: bool)
      modifies this`newCommonTags
      ensures accepted && newCommonTags == StrippedAll(tagList.items)
    {
      UpdateNewCommonTags();
      accepted := true;
    }

    /** cleanupPage, on the way back: the tags added to the common list
        join the recently deleted ones. Before initializePage ever got
        past its first check, common_tags does not exist and the page
        raises AttributeError. */
    method CleanupPage() returns (err: Option<Error>)
      modifies this`newCommonTags, this`recentlyDeletedTags
      ensures newCommonTags == StrippedAll(tagList.items)
      ensures commonTags.None? ==> err == Some(Unset) && recentlyDeletedTags == old(recentlyDeletedTags)
      ensures commonTags.Some? ==>
        err == None && recentlyDeletedTags == old(recentlyDeletedTags) + (newCommonTags - commonTags.value)
    {
      UpdateNewCommonTags();
      if commonTags.None? {
        return Some(Unset);
      }
      recentlyDeletedTags := recentlyDeletedTags + (newCommonTags - commonTags.value);
      err := None;
    }

    /** delete_tags: the checked common tags go; each joins the recently
        deleted tags and, unless already there, the top of the recommended
        list. */
    method DeleteTags() returns (ghost added: seq<string>)
      requires Valid()
      modifies this`recentlyDeletedTags, tagList, recommendTagsList
      ensures tagList.items == KeptOf(old(tagList.items))
      ensures recentlyDeletedTags == old(recentlyDeletedTags) + StrippedTexts(old(tagList.items))
      ensures Prepended(old(recommendTagsList.items), recommendTagsList.items, StrippedTexts(old(tagList.items)), added)
    {
      var deleted := Helpers.DeleteFromList(tagList);
      recentlyDeletedTags := recentlyDeletedTags + deleted;
      added := PrependMissing(recommendTagsList, deleted);
    }

    /** add_tags, given what the input dialog returned: the stripped text
        becomes a new unchecked row unless the dialog was cancelled, the
        text is blank, or a row already has exactly that text. */
    method AddTags(input: string, ok: bool)
      modifies tagList
      ensures var tag := Strip(input);
        tagList.items == if ok && tag != "" && tag !in TextsOf(old(tagList.items))
                         then old(tagList.items) + [Item(tag, Unchecked)] else old(tagList.items)
      ensures Distinct(TextsOf(old(tagList.items))) ==> Distinct(TextsOf(tagList.items))
      ensures forall t :: t in TextsOf(tagList.items) ==>
        t in TextsOf(old(tagList.items)) || (t != "" && Strip(t) == t)
    {
      var tag := Strip(input);
      if !ok || |tag| == 0 {
        return;
      }
      var found := tagList.Contains(tag);
      if found {
        return;
      }
      AppendRow(tagList.items, Item(tag, Unchecked));
      StripIdempotent(input);
      tagList.AddItem(Item(tag, Unchecked));
    }

    /** copy_to_common_tags: the double-clicked text becomes a new
        unchecked row unless a row already has exactly that text. */
    method CopyToCommonTags(text: string)
      modifies tagList
      ensures tagList.items == if text in TextsOf(old(tagList.items)) then old(tagList.items)
                               else old(tagList.items) + [Item(text, Unchecked)]
      ensures text in TextsOf(tagList.items)
      ensures Distinct(TextsOf(old(tagList.items))) ==> Distinct(TextsOf(tagList.items))
    {
      var found := tagList.Contains(text);
      if !found {
        AppendRow(tagList.items, Item(text, Unchecked));
        tagList.AddItem(Item(text, Unchecked));
      }
    }

    /** move_to_common_tags: copy_to_common_tags, then the double-clicked
        row leaves the recommended list. */
    method MoveToCommonTags(row: nat)
      requires Valid() && row < |recommendTagsList.items|
      modifies tagList, recommendTagsList
      ensures var text := old(recommendTagsList.items[row].text);
        && tagList.items == (if text in TextsOf(old(tagList.items)) then old(tagList.items)
                             else old(tagList.items) + [Item(text, Unchecked)])
        && text in TextsOf(tagList.items)
      ensures recommendTagsList.items == old(recommendTagsList.items)[..row] + old(recommendTagsList.items)[row + 1..]
    {
      CopyToCommonTags(recommendTagsList.items[row].text);
      var _ := recommendTagsList.TakeItem(row);
    }
  }

  /** The rows after the texts `added` went on top, one row each: the old
      rows follow unchanged, each new row holds an element of `s` that was
      not listed, and every element of `s` is now listed. */
  ghost predicate Prepended(before: seq<Item>, after: seq<Item>, s: set<string>, added: seq<string>)
  {
    && after == Rows(added) + before
    && Distinct(added)
    && (forall x :: x in added ==> x in s && x !in TextsOf(before))
    && (forall x :: x in s ==> x in added || x in TextsOf(before))
  }

  /** Prepending lists every element of `s` and keeps a list without
      repeats without repeats. */
  lemma PrependedSpec(before: seq<Item>, after: seq<Item>, s: set<string>, added: seq<string>)
    requires Prepended(before, after, s, added)
    ensures Entries(after) == Entries(before) + s
    ensures Distinct(TextsOf(before)) ==> Distinct(TextsOf(after))
  {
    assert TextsOf(after) == added + TextsOf(before);
    if Distinct(TextsOf(before)) {
      DistinctConcat(added, TextsOf(before));
    }
  }

  /** One element of the loop below: listed already, or new on top. */
  lemma PrependStep(before: seq<Item>, prev: seq<Item>, done: set<string>, added: seq<string>, x: string, found: bool)
    requires Prepended(before, prev, done, added)
    requires found <==> x in TextsOf(prev)
    ensures found ==> Prepended(before, prev, done + {x}, added)
    ensures !found ==> Prepended(before, [Item(x, Unchecked)] + prev, done + {x}, [x] + added)
  {
    assert TextsOf(prev) == added + TextsOf(before);
    if !found {
      assert Rows([x] + added) == [Item(x, Unchecked)] + Rows(added);
      DistinctConcat([x], added);
    }
  }

  /** The elements of a sequence. */
  function Members(xs: seq<string>): set<string>
  {
    set x | x in xs
  }

  /** The loop of delete_tags: every element not found in the list (with
      Qt.MatchExactly) is inserted at row 0. */
  method PrependMissing(w: ListWidget, s: set<string>) returns (ghost added: seq<string>)
    modifies w
    ensures Prepended(old(w.items), w.items, s, added)
  {
    var order := Elements(s);
    ghost var before := w.items;
    added := [];
    var i := 0;
    while i < |order|
      invariant i <= |order|
      invariant Prepended(before, w.items, Members(order[..i]), added)
    {
      assert Members(order[..i + 1]) == Members(order[..i]) + {order[i]} by {
        assert order[..i + 1] == order[..i] + [order[i]];
      }
      added := PrependOne(w, before, Members(order[..i]), added, order[i]);
      i := i + 1;
    }
    assert order[..i] == order;
  }

  /** One pass of that loop: findItems(x), and insertItem(0, x) when it
      found nothing. */
  method PrependOne(w: ListWidget, ghost before: seq<Item>, ghost done: set<string>, ghost added: seq<string>, x: string)
    returns (ghost added': seq<string>)
    requires Prepended(before, w.items, done, added)
    modifies w
    ensures Prepended(before, w.items, done + {x}, added')
  {
    var found := w.Contains(x);
    ghost var prev := w.items;
    PrependStep(before, prev, done, added, x, found);
    added' := added;
    if !found {
      w.InsertItem(0, x);
      assert w.items == [Item(x, Unchecked)] + prev by {
        assert prev[..0] == [] && prev[0..] == prev;
      }
      added' := [x] + added;
    }
  }
}
