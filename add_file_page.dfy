/** The wizard's first page: the list of files to tag. Files arrive from the
    file dialog or by drag and drop; sidecars and files already listed are
    skipped, and `files` follows the list. */
module AddFile {
  import opened Basics
  import opened Storage
  import opened Helpers

  /** The value `files` holds: the set add_to_filelist builds, or the list
      the page's delete_from_list assigns. Two values are equal exactly
      when Python's == says they are: a set never equals a list, not even
      an empty one. */
  datatype FileValue = FileSet(members: set<string>) | FileList(paths: seq<string>)

  /** The paths a value holds. */
  function Paths(v: FileValue): set<string>
  {
    match v
    case FileSet(s) => s
    case FileList(l) => set t | t in l
  }

  /** The order `for file in files` visits a value in: a set in some order,
      each element once; a list in its own order, repeats included. */
  ghost predicate Visits(order: seq<string>, v: FileValue)
  {
    match v
    case FileSet(s) => Enumerates(order, s)
    case FileList(l) => order == l
  }

  /** The texts of the rows delete_from_list keeps are exactly the texts of
      the rows that were not Checked. */
  lemma KeptTexts(items: seq<Item>)
    ensures forall t :: t in TextsOf(KeptOf(items)) <==> exists x :: x in items && x.state != Checked && x.text == t
  {
    FilterSplit(items);
    var kept := KeptOf(items);
    var list := TextsOf(kept);
    forall t
      ensures t in list <==> exists x :: x in items && x.state != Checked && x.text == t
    {
      if t in list {
        var i :| 0 <= i < |list| && list[i] == t;
        assert kept[i] in kept;
      }
      if exists x :: x in items && x.state != Checked && x.text == t {
        var x :| x in items && x.state != Checked && x.text == t;
        var i :| 0 <= i < |kept| && kept[i] == x;
        assert list[i] == t;
      }
    }
  }

  class AddFilePage {
    var files: FileValue
    const fileList: ListWidget

    constructor ()
      ensures files == FileSet({}) && fresh(fileList) && fileList.items == []
    {
      files := FileSet({});
      fileList := new ListWidget();
    }

    /** get_file_list: the texts of the rows, in row order. */
    method GetFileList() returns (list: seq<string>)
      ensures list == TextsOf(fileList.items)
    {
      list := [];
      var i := 0;
      while i < |fileList.items|
        invariant i <= |fileList.items|
        invariant list == TextsOf(fileList.items[..i])
      {
        assert TextsOf(fileList.items[..i + 1]) == TextsOf(fileList.items[..i]) + [fileList.items[i].text];
        list := list + [fileList.items[i].text];
        i := i + 1;
      }
      assert fileList.items[..i] == fileList.items;
    }

    /** add_to_filelist: nothing for None; otherwise each incoming path that
        is not a sidecar and not listed yet becomes a new Unchecked row, and
        `files` becomes the listed paths when the list is not empty. The
        rows already there stay where they were, and a list without repeats
        stays without repeats. */
    method AddToFilelist(incoming: Option<set<string>>)
      modifies this, fileList
      ensures incoming.None? ==> files == old(files) && fileList.items == old(fileList.items)
      ensures incoming.Some? ==>
        && |old(fileList.items)| <= |fileList.items|
        && fileList.items[..|old(fileList.items)|] == old(fileList.items)
        && (forall i :: |old(fileList.items)| <= i < |fileList.items| ==>
              && fileList.items[i].state == Unchecked
              && fileList.items[i].text !in TextsOf(old(fileList.items))
              && !EndsWith(fileList.items[i].text, SidecarSuffix))
        && (forall t :: t in TextsOf(fileList.items) <==>
              t in TextsOf(old(fileList.items)) || (t in incoming.value && !EndsWith(t, SidecarSuffix)))
        && (Distinct(TextsOf(old(fileList.items))) ==> Distinct(TextsOf(fileList.items)))
        && files == if fileList.items == [] then old(files) else FileSet(Entries(fileList.items))
    {
      if incoming.None? {
        return;
      }
      var rest := incoming.value;
      ghost var before := fileList.items;
      while rest != {}
        invariant rest <= incoming.value
        invariant |before| <= |fileList.items| && fileList.items[..|before|] == before
        invariant forall i :: |before| <= i < |fileList.items| ==>
          && fileList.items[i].state == Unchecked
          && fileList.items[i].text !in TextsOf(before)
          && !EndsWith(fileList.items[i].text, SidecarSuffix)
        invariant forall t :: t in TextsOf(fileList.items) <==>
          t in TextsOf(before) || (t in incoming.value - rest && !EndsWith(t, SidecarSuffix))
        invariant Distinct(TextsOf(before)) ==> Distinct(TextsOf(fileList.items))
        invariant files == old(files)
        decreases rest
      {
        var f :| f in rest;
        var found := fileList.Contains(f);
        if !EndsWith(f, SidecarSuffix) && !found {
          AppendNew(f, before);
        }
        rest := rest - {f};
      }
      var list := GetFileList();
      if list != [] {
        files := FileSet(set t | t in list);
      }
    }

    /** One new row at the end of the list, for a path not listed yet. */
    method AppendNew(f: string, ghost before: seq<Item>)
      requires f !in TextsOf(fileList.items) && !EndsWith(f, SidecarSuffix)
      requires |before| <= |fileList.items| && fileList.items[..|before|] == before
      modifies fileList
      ensures fileList.items == old(fileList.items) + [Item(f, Unchecked)]
      ensures TextsOf(fileList.items) == TextsOf(old(fileList.items)) + [f]
      ensures fileList.items[..|before|] == before && f !in TextsOf(before)
      ensures Distinct(TextsOf(old(fileList.items))) ==> Distinct(TextsOf(fileList.items))
    {
      fileList.AddItem(Item(f, Unchecked));
      assert TextsOf(fileList.items) == TextsOf(old(fileList.items)) + [f];
      assert TextsOf(before) == TextsOf(old(fileList.items))[..|before|];
    }

    /** The page's delete_from_list: the Checked rows go, and `files`
        becomes the list of the paths still listed, in row order. */
    method DeleteFromList()
      modifies this, fileList
      ensures fileList.items == KeptOf(old(fileList.items))
      ensures files == FileList(TextsOf(fileList.items))
      ensures forall t :: t in Paths(files) <==>
        exists x :: x in old(fileList.items) && x.state != Checked && x.text == t
    {
      var _ := Helpers.DeleteFromList(fileList);
      var list := GetFileList();
      files := FileList(list);
      KeptTexts(old(fileList.items));
    }
  }
}
