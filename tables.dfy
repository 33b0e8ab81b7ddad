/**
  The table rows, the selectable table, the tab bar and the game versions of
  src/app.rs.

  A `StatefulTable` holds its rows and the index of the selected row; moving
  the selection wraps around at both ends. The two tabs cycle in the same way.
 */
module Tables {
  import opened Wrappers
  import opened Manifest

  /** One displayed row: its text cells, the archive URL it installs from, and the add-on behind it. */
  datatype TableItem = TableItem(cells: seq<string>, downloadUrl: string, addon: Addon)

  /** The selection `StatefulTable::next` moves to. `len - 1` is evaluated only when a row is selected, so only then must the table be non-empty. */
  function NextIndex(selected: Option<nat>, len: nat): (i: nat)
    requires selected.Some? ==> len > 0
    ensures selected.None? ==> i == 0
    ensures selected.Some? ==> i < len
    ensures selected.Some? ==> (i == 0 <==> selected.value >= len - 1)
    ensures selected.Some? && selected.value < len - 1 ==> i == selected.value + 1
  {
    match selected
    case Some(i) => if i >= len - 1 then 0 else i + 1
    case None => 0
  }

  /** The selection `StatefulTable::previous` moves to; `len - 1` is evaluated only when the selection is 0. */
  function PreviousIndex(selected: Option<nat>, len: nat): (i: nat)
    requires selected == Some(0) ==> len > 0
    ensures selected.None? ==> i == 0
    ensures selected == Some(0) ==> i == len - 1
    ensures selected.Some? && selected.value > 0 ==> i == selected.value - 1
    ensures selected.Some? && selected.value <= len && len > 0 ==> i < len
  {
    match selected
    case Some(i) => if i == 0 then len - 1 else i - 1
    case None => 0
  }

  /** On an in-range selection, stepping forward and back (or back and forward) returns to it. */
  lemma NextPreviousInverse(i: nat, len: nat)
    requires i < len
    ensures PreviousIndex(Some(NextIndex(Some(i), len)), len) == i
    ensures NextIndex(Some(PreviousIndex(Some(i), len)), len) == i
  {
  }

  class StatefulTable {
    var selected: Option<nat>
    var items: seq<TableItem>

    constructor ()
      ensures selected == None && items == []
    {
      selected := None;
      items := [];
    }

    /** The selected row, when the selection is inside the table. */
    function Selection(): (r: Option<TableItem>)
      reads this
      ensures r.Some? <==> selected.Some? && selected.value < |items|
      ensures r.Some? ==> r.value == items[selected.value]
    {
      match selected
      case Some(i) => if i < |items| then Some(items[i]) else None
      case None => None
    }

    method Next()
      requires selected.Some? ==> |items| > 0
      modifies this
      ensures items == old(items)
      ensures selected == Some(NextIndex(old(selected), |items|))
    {
      var i := 0;
      match selected {
        case Some(s) =>
          i := if s >= |items| - 1 then 0 else s + 1;
        case None =>
      }
      selected := Some(i);
    }

    method Previous()
      requires selected == Some(0) ==> |items| > 0
      modifies this
      ensures items == old(items)
      ensures selected == Some(PreviousIndex(old(selected), |items|))
    {
      var i := 0;
      match selected {
        case Some(s) =>
          i := if s == 0 then |items| - 1 else s - 1;
        case None =>
      }
      selected := Some(i);
    }

    method GetSelected() returns (r: Option<TableItem>)
      ensures r == Selection()
    {
      r := None;
      if selected.Some? && selected.value < |items| {
        r := Some(items[selected.value]);
      }
    }
  }

  /** The game line whose add-ons are shown, installed and looked up. */
  datatype Version = Classic | Tbc | Retail

  datatype Tab = Installed | Search

  /** `Tab::len()` */
  const TabCount: nat := 2

  /** `tab as usize` */
  function TabIndex(t: Tab): (i: nat)
    ensures i < TabCount
  {
    match t
    case Installed => 0
    case Search => 1
  }

  /** `Tab::from`: the tab with that index, if there is one. */
  function TabFrom(i: nat): (r: Option<Tab>)
    ensures r.Some? <==> i < TabCount
    ensures r.Some? ==> TabIndex(r.value) == i
  {
    match i
    case 0 => Some(Installed)
    case 1 => Some(Search)
    case _ => None
  }

  /** The tab after `t`: `(t + 1).rem_euclid(Tab::len())`. */
  function NextTab(t: Tab): (r: Tab)
    ensures r != t
    ensures TabIndex(r) == (TabIndex(t) + 1) % TabCount
  {
    TabFrom((TabIndex(t) + 1) % TabCount).value
  }

  /** The tab before `t`: `(t - 1).rem_euclid(Tab::len())`; Dafny's `%` is Euclidean like `rem_euclid`. */
  function PrevTab(t: Tab): (r: Tab)
    ensures r != t
    ensures TabIndex(r) == (TabIndex(t) - 1) % TabCount
  {
    TabFrom(((TabIndex(t) - 1) % TabCount) as nat).value
  }

  /** Next and previous undo each other, and each moves to the other tab. */
  lemma TabCycle(t: Tab)
    ensures PrevTab(NextTab(t)) == t && NextTab(PrevTab(t)) == t
    ensures NextTab(t) != t && PrevTab(t) != t
  {
  }
}
