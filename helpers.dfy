/** The check-box list helpers the wizard pages share, over a list widget
    reduced to its rows: each row's text and check state. */
module Helpers {
  import opened Basics

  /** Qt.CheckState. A row whose state was never set reports Unchecked. */
  datatype CheckState = Unchecked | PartiallyChecked | Checked

  /** A QListWidgetItem: its text and its check state. */
  datatype Item = Item(text: string, state: CheckState)

  /** The texts of the rows, in row order. */
  function TextsOf(items: seq<Item>): (r: seq<string>)
    ensures |r| == |items| && forall i :: 0 <= i < |items| ==> r[i] == items[i].text
  {
    seq(|items|, i requires 0 <= i < |items| => items[i].text)
  }

  predicate Distinct(s: seq<string>)
  {
    forall i, j :: 0 <= i < j < |s| ==> s[i] != s[j]
  }

  /** Two lists without repeats and without a common element join into one
      without repeats. */
  lemma DistinctConcat(a: seq<string>, b: seq<string>)
    requires Distinct(a) && Distinct(b) && forall x :: x in a ==> x !in b
    ensures Distinct(a + b)
  {
    forall i, j | 0 <= i < j < |a + b|
      ensures (a + b)[i] != (a + b)[j]
    {
      if i < |a| && |a| <= j {
        assert (a + b)[i] in a && (a + b)[j] in b;
      }
    }
  }

  /** A QListWidget: its rows in order. */
  class ListWidget {
    var items: seq<Item>

    constructor ()
      ensures items == []
    {
      items := [];
    }

    /** clear(). */
    method Clear()
      modifies this
      ensures items == []
    {
      items := [];
    }

    /** QListWidgetItem(list_widget): a new row at the end. */
    method AddItem(x: Item)
      modifies this
      ensures items == old(items) + [x]
    {
      items := items + [x];
    }

    /** insertItem(row, text): a new row, with no check state, at `row`. */
    method InsertItem(row: nat, text: string)
      requires row <= |items|
      modifies this
      ensures items == old(items)[..row] + [Item(text, Unchecked)] + old(items)[row..]
    {
      items := items[..row] + [Item(text, Unchecked)] + items[row..];
    }

    /** takeItem(row). */
    method TakeItem(row: nat) returns (x: Item)
      requires row < |items|
      modifies this
      ensures x == old(items)[row] && items == old(items)[..row] + old(items)[row + 1..]
    {
      x := items[row];
      items := items[..row] + items[row + 1..];
    }

    /** item(row).setCheckState(state). */
    method SetCheckState(row: nat, state: CheckState)
      requires row < |items|
      modifies this
      ensures items == old(items)[row := old(items)[row].(state := state)]
    {
      items := items[row := items[row].(state := state)];
    }

    /** findItems(text, ...) is non-empty: with Qt.MatchExactly, and with
        Qt.MatchFixedString | Qt.MatchCaseSensitive, a row's text equals
        `text` exactly. */
    method Contains(text: string) returns (found: bool)
      ensures found <==> text in TextsOf(items)
    {
      found := false;
      var i := 0;
      while i < |items|
        invariant i <= |items|
        invariant found <==> text in TextsOf(items[..i])
      {
        assert TextsOf(items[..i + 1]) == TextsOf(items[..i]) + [items[i].text];
        if items[i].text == text {
          found := true;
        }
        i := i + 1;
      }
      assert items[..i] == items;
    }
  }

  /** The set of the texts of a list. */
  function Entries(items: seq<Item>): set<string>
  {
    set t | t in TextsOf(items)
  }

  /** New rows for the texts, in order, with no check state set. */
  function Rows(texts: seq<string>): (r: seq<Item>)
    ensures |r| == |texts| && TextsOf(r) == texts
    ensures forall i :: 0 <= i < |r| ==> r[i].state == Unchecked
  {
    seq(|texts|, i requires 0 <= i < |texts| => Item(texts[i], Unchecked))
  }

  /** One more row at the end: its text joins the texts, and a text not
      listed yet keeps the list without repeats. */
  lemma AppendRow(items: seq<Item>, x: Item)
    ensures TextsOf(items + [x]) == TextsOf(items) + [x.text]
    ensures forall t :: t in TextsOf(items + [x]) <==> t in TextsOf(items) || t == x.text
    ensures Distinct(TextsOf(items)) && x.text !in TextsOf(items) ==> Distinct(TextsOf(items + [x]))
  {
    assert TextsOf(items + [x]) == TextsOf(items) + [x.text];
  }

  /** Rows listing a set once each, none checked. */
  ghost predicate Lists(items: seq<Item>, s: set<string>)
  {
    Entries(items) == s && Distinct(TextsOf(items)) && forall i :: 0 <= i < |items| ==> items[i].state == Unchecked
  }

  /** Rows made from a set's elements, each once, list that set without
      repeats. */
  lemma RowsOfSet(order: seq<string>, s: set<string>)
    requires Enumerates(order, s)
    ensures Lists(Rows(order), s)
  {
    assert TextsOf(Rows(order)) == order;
  }

  /** `for x in s: QListWidgetItem(w).setText(x)`: a new row per element,
      in the set's iteration order. */
  method AppendAll(w: ListWidget, s: set<string>) returns (order: seq<string>)
    modifies w
    ensures Enumerates(order, s) && w.items == old(w.items) + Rows(order)
  {
    order := Elements(s);
    AppendSeq(w, order);
  }

  /** A new row per text, in order. */
  method AppendSeq(w: ListWidget, texts: seq<string>)
    modifies w
    ensures w.items == old(w.items) + Rows(texts)
  {
    for i := 0 to |texts|
      invariant w.items == old(w.items) + Rows(texts[..i])
    {
      assert Rows(texts[..i + 1]) == Rows(texts[..i]) + [Item(texts[i], Unchecked)];
      w.AddItem(Item(texts[i], Unchecked));
    }
    assert texts[..|texts|] == texts;
  }

  /** insertItems(0, s): the elements as new rows on top, in the set's
      iteration order. */
  method InsertAll(w: ListWidget, s: set<string>) returns (order: seq<string>)
    modifies w
    ensures Enumerates(order, s) && w.items == Rows(order) + old(w.items)
  {
    order := Elements(s);
    for i := 0 to |order|
      invariant w.items == Rows(order[..i]) + old(w.items)
    {
      assert Rows(order[..i + 1]) == Rows(order[..i]) + [Item(order[i], Unchecked)];
      w.InsertItem(i, order[i]);
    }
    assert order[..|order|] == order;
  }

  // ---------------------------------------------------------------------
  // What the helpers compute

  /** No row is Unchecked; a partly checked row counts as checked. */
  predicate AllChecked(items: seq<Item>)
  {
    forall i :: 0 <= i < |items| ==> items[i].state != Unchecked
  }

  /** The Checked rows in row order. */
  function CheckedOf(items: seq<Item>): seq<Item>
  {
    if items == [] then []
    else (if items[0].state == Checked then [items[0]] else []) + CheckedOf(items[1..])
  }

  /** The rows that are not Checked, in row order. */
  function KeptOf(items: seq<Item>): seq<Item>
  {
    if items == [] then []
    else (if items[0].state == Checked then [] else [items[0]]) + KeptOf(items[1..])
  }

  /** The set delete_from_list returns: the stripped texts of the Checked
      rows. */
  function StrippedTexts(items: seq<Item>): set<string>
  {
    set x | x in CheckedOf(items) :: Strip(x.text)
  }

  /** The state check_all gives every row: Unchecked when all were checked,
      Checked otherwise. */
  function Toggled(items: seq<Item>): (r: seq<Item>)
    ensures |r| == |items|
  {
    var s := if AllChecked(items) then Unchecked else Checked;
    seq(|items|, i requires 0 <= i < |items| => items[i].(state := s))
  }

  /** Filtering works row by row, so it keeps row order: filtering a list
      split in two filters each part. */
  lemma FilterAppend(a: seq<Item>, b: seq<Item>)
    ensures CheckedOf(a + b) == CheckedOf(a) + CheckedOf(b)
    ensures KeptOf(a + b) == KeptOf(a) + KeptOf(b)
  {
    CheckedAppend(a, b);
    KeptAppend(a, b);
  }

  lemma {:induction false} CheckedAppend(a: seq<Item>, b: seq<Item>)
    ensures CheckedOf(a + b) == CheckedOf(a) + CheckedOf(b)
    decreases |a|
  {
    if a == [] {
      assert a + b == b;
    } else {
      assert (a + b)[0] == a[0] && (a + b)[1..] == a[1..] + b;
      CheckedAppend(a[1..], b);
      var h := if a[0].state == Checked then [a[0]] else [];
      assert CheckedOf(a + b) == h + CheckedOf(a[1..] + b);
      assert CheckedOf(a) == h + CheckedOf(a[1..]);
    }
  }

  lemma {:induction false} KeptAppend(a: seq<Item>, b: seq<Item>)
    ensures KeptOf(a + b) == KeptOf(a) + KeptOf(b)
    decreases |a|
  {
    if a == [] {
      assert a + b == b;
    } else {
      assert (a + b)[0] == a[0] && (a + b)[1..] == a[1..] + b;
      KeptAppend(a[1..], b);
      var h := if a[0].state == Checked then [] else [a[0]];
      assert KeptOf(a + b) == h + KeptOf(a[1..] + b);
      assert KeptOf(a) == h + KeptOf(a[1..]);
    }
  }

  /** The Checked rows and the other rows split the list: each row goes to
      exactly one side, and nothing is lost or invented. */
  lemma {:induction false} FilterSplit(items: seq<Item>)
    ensures |CheckedOf(items)| + |KeptOf(items)| == |items|
    ensures forall x :: x in CheckedOf(items) <==> x in items && x.state == Checked
    ensures forall x :: x in KeptOf(items) <==> x in items && x.state != Checked
  {
    if items != [] {
      FilterSplit(items[1..]);
      assert forall x :: x in items <==> x == items[0] || x in items[1..];
    }
  }

  /** One more row: its stripped text joins the set when it is Checked. */
  lemma StrippedTextsStep(items: seq<Item>, x: Item)
    ensures CheckedOf(items + [x]) == CheckedOf(items) + (if x.state == Checked then [x] else [])
    ensures KeptOf(items + [x]) == KeptOf(items) + (if x.state == Checked then [] else [x])
    ensures StrippedTexts(items + [x]) == StrippedTexts(items) + (if x.state == Checked then {Strip(x.text)} else {})
  {
    FilterAppend(items, [x]);
    assert CheckedOf([x]) == (if x.state == Checked then [x] else []) + CheckedOf([]);
    assert KeptOf([x]) == (if x.state == Checked then [] else [x]) + KeptOf([]);
  }

  /** delete_from_list at the row `k` of the original list, when the rows
      before it are done: the row sits just past the kept ones, and taking
      it out (when Checked) or stepping over it (otherwise) gives the state
      with row `k` done. */
  lemma RowStep(before: seq<Item>, k: nat)
    requires k < |before|
    ensures var kept := KeptOf(before[..k]); var p := kept + before[k..]; var n := |kept|;
      && n < |p| && p[n] == before[k]
      && (before[k].state == Checked ==>
            p[..n] + p[n + 1..] == KeptOf(before[..k + 1]) + before[k + 1..] && |KeptOf(before[..k + 1])| == n)
      && (before[k].state != Checked ==>
            p == KeptOf(before[..k + 1]) + before[k + 1..] && |KeptOf(before[..k + 1])| == n + 1)
  {
    assert before[..k + 1] == before[..k] + [before[k]];
    KeptAppend(before[..k], [before[k]]);
    var kept := KeptOf(before[..k]);
    var p := kept + before[k..];
    assert p[..|kept|] == kept;
    assert p[|kept| + 1..] == before[k + 1..];
    assert before[k..] == [before[k]] + before[k + 1..];
  }

  /** The same row, for the set of deleted texts. */
  lemma StrippedRowStep(before: seq<Item>, k: nat)
    requires k < |before|
    ensures StrippedTexts(before[..k + 1])
            == StrippedTexts(before[..k]) + (if before[k].state == Checked then {Strip(before[k].text)} else {})
  {
    assert before[..k + 1] == before[..k] + [before[k]];
    StrippedTextsStep(before[..k], before[k]);
  }

  /** After check_all every row keeps its text and all rows share one state;
      on a non-empty list a second check_all flips that state. */
  lemma ToggledSpec(items: seq<Item>)
    ensures TextsOf(Toggled(items)) == TextsOf(items)
    ensures forall i, j :: 0 <= i < |items| && 0 <= j < |items| ==> Toggled(items)[i].state == Toggled(items)[j].state
    ensures AllChecked(items) ==> forall i :: 0 <= i < |items| ==> Toggled(items)[i].state == Unchecked
    ensures !AllChecked(items) ==> forall i :: 0 <= i < |items| ==> Toggled(items)[i].state == Checked
    ensures items != [] ==> (AllChecked(Toggled(items)) <==> !AllChecked(items))
  {
    if items != [] && AllChecked(items) {
      assert Toggled(items)[0].state == Unchecked;
    }
  }

  // ---------------------------------------------------------------------
  // The helpers

  /** is_all_checked: the first Unchecked row ends the search. */
  method IsAllChecked(w: ListWidget) returns (b: bool)
    ensures b <==> AllChecked(w.items)
  {
    var i := 0;
    while i < |w.items|
      invariant i <= |w.items|
      invariant forall j :: 0 <= j < i ==> w.items[j].state != Unchecked
    {
      if w.items[i].state == Unchecked {
        return false;
      }
      i := i + 1;
    }
    return true;
  }

  /** check_all. */
  method CheckAll(w: ListWidget)
    modifies w
    ensures w.items == Toggled(old(w.items))
  {
    var all := IsAllChecked(w);
    var s := if all then Unchecked else Checked;
    ghost var before := w.items;
    var i := 0;
    while i < |w.items|
      invariant i <= |w.items| == |before|
      invariant forall j :: 0 <= j < i ==> w.items[j] == before[j].(state := s)
      invariant forall j :: i <= j < |before| ==> w.items[j] == before[j]
    {
      w.SetCheckState(i, s);
      i := i + 1;
    }
  }

  /** get_checked_items. */
  method GetCheckedItems(w: ListWidget) returns (checked: seq<Item>)
    ensures checked == CheckedOf(w.items)
  {
    checked := [];
    var i := 0;
    while i < |w.items|
      invariant i <= |w.items|
      invariant checked == CheckedOf(w.items[..i])
    {
      assert w.items[..i + 1] == w.items[..i] + [w.items[i]];
      FilterAppend(w.items[..i], [w.items[i]]);
      if w.items[i].state == Checked {
        checked := checked + [w.items[i]];
      }
      i := i + 1;
    }
    assert w.items[..i] == w.items;
  }

  /** delete_from_list: take out the Checked rows, collecting their stripped
      texts. */
  method DeleteFromList(w: ListWidget) returns (deleted: set<string>)
    modifies w
    ensures w.items == KeptOf(old(w.items))
    ensures deleted == StrippedTexts(old(w.items))
  {
    ghost var before := w.items;
    deleted := {};
    var j := 0;
    ghost var k := 0;
    while j < |w.items|
      invariant k <= |before| && j == |KeptOf(before[..k])|
      invariant w.items == KeptOf(before[..k]) + before[k..]
      invariant deleted == StrippedTexts(before[..k])
      decreases |w.items| - j
    {
      RowStep(before, k);
      StrippedRowStep(before, k);
      if w.items[j].state == Checked {
        var x := w.TakeItem(j);
        deleted := deleted + {Strip(x.text)};
      } else {
        j := j + 1;
      }
      k := k + 1;
    }
    assert before[..k] == before;
  }
}
