/** The wizard's third page: what applying the edited common tags will do,
    and, once confirmed, the change written to every chosen file. */
module Preview {
  import opened Basics
  import opened Storage
  import opened Database
  import opened BijiRecord
  import opened Helpers

  /** deleted_tags: the common tags the user removed. */
  function Deleted(oldTags: set<string>, newTags: set<string>): set<string>
  {
    oldTags - newTags
  }

  /** new_added_tags: the common tags the user added. */
  function Added(oldTags: set<string>, newTags: set<string>): set<string>
  {
    newTags - oldTags
  }

  /** The two differences never share a tag, applying them to the old
      common tags gives the new ones, and both are empty exactly when the
      user changed nothing. */
  lemma DeltaSpec(oldTags: set<string>, newTags: set<string>)
    ensures Deleted(oldTags, newTags) * Added(oldTags, newTags) == {}
    ensures NewTags(oldTags, Deleted(oldTags, newTags), Added(oldTags, newTags)) == newTags
    ensures Deleted(oldTags, newTags) + Added(oldTags, newTags) == {} <==> oldTags == newTags
  {
    if Deleted(oldTags, newTags) + Added(oldTags, newTags) == {} {
      forall x | x in oldTags
        ensures x in newTags
      {
        assert x !in Deleted(oldTags, newTags);
      }
      forall x | x in newTags
        ensures x in oldTags
      {
        assert x !in Added(oldTags, newTags);
      }
    }
  }

  /** A file that carried every old common tag keeps its other tags and
      ends up with the new common tags in their place. */
  lemma CommonReplaced(tags: set<string>, oldTags: set<string>, newTags: set<string>)
    requires oldTags <= tags
    ensures NewTags(tags, Deleted(oldTags, newTags), Added(oldTags, newTags)) == (tags - oldTags) + newTags
  {
    var r := NewTags(tags, Deleted(oldTags, newTags), Added(oldTags, newTags));
    forall x | x in newTags
      ensures x in r
    {
      if x in oldTags {
        assert x in tags && x !in Deleted(oldTags, newTags);
      }
    }
  }

  class PreviewPage {
    var files: set<string>
    var oldCommonTags: set<string>
    var newCommonTags: set<string>
    /** deleted_tags and new_added_tags, which only initializePage assigns. */
    var deletedTags: Option<set<string>>
    var newAddedTags: Option<set<string>>
    /** Whether the "Nothing's changed." label is showing. */
    var labelShown: bool
    const fileList: ListWidget
    const deletedTagsList: ListWidget
    const newTagsList: ListWidget

    /** The three lists are distinct widgets. */
    ghost predicate Valid()
      reads this
    {
      fileList != deletedTagsList && fileList != newTagsList && deletedTagsList != newTagsList
    }

    constructor ()
      ensures Valid()
      ensures files == {} && oldCommonTags == {} && newCommonTags == {}
      ensures deletedTags == None && newAddedTags == None && !labelShown
      ensures fileList.items == [] && deletedTagsList.items == [] && newTagsList.items == []
    {
      files, oldCommonTags, newCommonTags := {}, {}, {};
      deletedTags, newAddedTags := None, None;
      labelShown := false;
      fileList := new ListWidget();
      deletedTagsList := new ListWidget();
      newTagsList := new ListWidget();
    }

    /** initializePage: the two differences are computed; when both are
        empty only the label shows and the lists keep what they had,
        otherwise the label hides and the lists show the files, the removed
        tags and the added tags, each once. */
    method InitializePage()
      requires Valid()
      modifies this`deletedTags, this`newAddedTags, this`labelShown, fileList, deletedTagsList, newTagsList
      ensures deletedTags == Some(Deleted(oldCommonTags, newCommonTags))
      ensures newAddedTags == Some(Added(oldCommonTags, newCommonTags))
      ensures labelShown <==> oldCommonTags == newCommonTags
      ensures labelShown ==> unchanged(fileList, deletedTagsList, newTagsList)
      ensures !labelShown ==>
        && Lists(fileList.items, files)
        && Lists(deletedTagsList.items, Deleted(oldCommonTags, newCommonTags))
        && Lists(newTagsList.items, Added(oldCommonTags, newCommonTags))
    {
      var deleted := oldCommonTags - newCommonTags;
      var added := newCommonTags - oldCommonTags;
      deletedTags, newAddedTags := Some(deleted), Some(added);
      DeltaSpec(oldCommonTags, newCommonTags);
      if deleted + added == {} {
        labelShown := true;
        return;
      }
      labelShown := false;
      fileList.Clear();
      deletedTagsList.Clear();
      newTagsList.Clear();
      FillList(fileList, files);
      FillList(deletedTagsList, deleted);
      FillList(newTagsList, added);
    }

    /** isComplete: Apply is offered only while the label is hidden. */
    method IsComplete() returns (complete: bool)
      ensures complete <==> !labelShown
    {
      complete := !labelShown;
    }

    /** validatePage, given the answer to "Apply changes to files?": a No
        leaves everything alone; a Yes rewrites every chosen file, in the
        set's iteration order, dropping the removed common tags and adding
        the new ones, and the page is left only if no file raised. Before
        initializePage has run the differences do not exist and the page
        raises AttributeError. */
    method ValidatePage(fs: FileSystem, db: BijiDatabase, confirmed: bool, env: Env)
      returns (accepted: bool, err: Option<Error>)
      requires fs.Valid() && db.Valid()
      modifies fs, db
      ensures fs.Valid() && db.Valid()
      ensures accepted <==> confirmed && err == None
      ensures !confirmed || deletedTags.None? || newAddedTags.None? ==>
        WorldOf(fs, db) == old(WorldOf(fs, db)) && err == (if confirmed then Some(Unset) else None)
      ensures confirmed && deletedTags.Some? && newAddedTags.Some? ==>
        && (exists order :: Enumerates(order, files)
              && Outcome(WorldOf(fs, db), err) == RetagAll(old(WorldOf(fs, db)), order, deletedTags.value, newAddedTags.value, env))
        && (err == None ==> forall f :: f in files ==>
              FileTags(fs.sidecars, f) == NewTags(FileTags(old(fs.sidecars), f), deletedTags.value, newAddedTags.value))
        && (forall f :: f !in files ==> FileTags(fs.sidecars, f) == FileTags(old(fs.sidecars), f))
    {
      if !confirmed {
        return false, None;
      }
      if deletedTags.None? || newAddedTags.None? {
        return false, Some(Unset);
      }
      ghost var w := WorldOf(fs, db);
      var order := Elements(files);
      err := Biji.UpdateTagsForFiles(fs, db, order, deletedTags.value, newAddedTags.value, env);
      RetagAllSidecars(w, order, deletedTags.value, newAddedTags.value, env);
      forall f | f !in files
        ensures FileTags(fs.sidecars, f) == FileTags(w.sidecars, f)
      {
        RetagAllFrame(w, order, deletedTags.value, newAddedTags.value, env, f);
      }
      accepted := err == None;
    }
  }

  /** One list filled, from empty, with a set's elements. */
  method FillList(w: ListWidget, s: set<string>)
    requires w.items == []
    modifies w
    ensures Lists(w.items, s)
  {
    var order := AppendAll(w, s);
    assert w.items == Rows(order);
    RowsOfSet(order, s);
  }
}
