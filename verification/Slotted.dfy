/** Data pages by what they hold (`src/storage/slotted.rs`): a slot directory
    and the cells in it. Where on the page a cell's bytes lie is left out; how
    many bytes are free, and how many dead, is not. */
module Slotted {
  import opened Values

  type PageId = nat

  const USABLE: int := 8188
  const HEADER_LEN: int := 13
  const SLOT_LEN: int := 4
  /** The free space of an empty page. */
  const EMPTY_ROOM: int := USABLE - HEADER_LEN

  /** A record's cell: the encoded document, or where its chain begins. */
  datatype Cell = Inline(id: DocId, encoded: seq<byte>) | Overflow(id: DocId, len: nat, first: PageId) {
    function Length(): (n: nat) {
      if Inline? then 17 + |encoded| else 29
    }
  }

  function SpaceNeeded(len: nat): (n: nat) {
    4 + len
  }

  /** A page: its slots, a tombstone each without a cell, and how many bytes of
      deleted or shrunk cells lie between the others. */
  datatype SlottedPage = SlottedPage(slots: seq<Option<Cell>>, dead: nat) {
    function Reclaimable(): (n: int) {
      USABLE - HEADER_LEN - |slots| * SLOT_LEN - Live(slots)
    }

    function FreeSpace(): (n: int) {
      Reclaimable() - dead
    }

    predicate Ok() {
      FreeSpace() >= 0
    }

    function CellAt(slot: nat): (cell: Option<Cell>) {
      if slot < |slots| then slots[slot] else None
    }

    predicate IsEmpty() {
      forall s :: 0 <= s < |slots| ==> slots[s].None?
    }

    function FitsReusingSlot(len: nat): (fits: bool) {
      if FirstTombstone(slots).Some? then Reclaimable() >= len else Reclaimable() >= SpaceNeeded(len)
    }
  }

  const EmptyPage := SlottedPage([], 0)

  function LengthOf(cell: Option<Cell>): (n: nat) {
    if cell.Some? then cell.value.Length() else 0
  }

  function Live(slots: seq<Option<Cell>>): (n: nat) {
    if slots == [] then 0 else Live(slots[..|slots| - 1]) + LengthOf(slots[|slots| - 1])
  }

  lemma {:induction false} LiveWith(slots: seq<Option<Cell>>, s: nat, cell: Option<Cell>)
    requires s < |slots|
    ensures Live(slots[s := cell]) == Live(slots) - LengthOf(slots[s]) + LengthOf(cell)
  {
    var n := |slots| - 1;
    var with := slots[s := cell];
    if s == n {
      assert with[..n] == slots[..n];
    } else {
      assert with[..n] == slots[..n][s := cell];
      LiveWith(slots[..n], s, cell);
    }
  }

  lemma LiveAppended(slots: seq<Option<Cell>>, cell: Option<Cell>)
    ensures Live(slots + [cell]) == Live(slots) + LengthOf(cell)
  {
    assert (slots + [cell])[..|slots|] == slots;
  }

  function FirstTombstone(slots: seq<Option<Cell>>): (slot: Option<nat>)
    ensures slot.Some? ==> slot.value < |slots| && slots[slot.value].None?
    ensures slot.None? ==> forall s :: 0 <= s < |slots| ==> slots[s].Some?
  {
    if slots == [] then None
    else if slots[0].None? then Some(0)
    else
      var rest := FirstTombstone(slots[1..]);
      assert forall s :: 1 <= s < |slots| ==> slots[1..][s - 1] == slots[s];
      if rest.Some? then Some(rest.value + 1) else None
  }

  /** The directory without its trailing tombstones, but not below `least`. */
  function Trimmed(slots: seq<Option<Cell>>, least: nat): (kept: seq<Option<Cell>>)
    ensures kept <= slots && Live(kept) == Live(slots)
    ensures forall s :: |kept| <= s < |slots| ==> slots[s].None?
    ensures least <= |slots| ==> least <= |kept|
  {
    var n := |slots| - 1;
    if |slots| > least && slots != [] && slots[n].None? then Trimmed(slots[..n], least) else slots
  }

  /** `compact_keeping`. */
  function Compacted(page: SlottedPage, least: nat): (packed: SlottedPage)
    requires page.Ok()
    ensures packed.Ok() && packed.FreeSpace() == packed.Reclaimable() >= page.Reclaimable()
    ensures forall s: nat :: packed.CellAt(s) == page.CellAt(s)
  {
    SlottedPage(Trimmed(page.slots, least), 0)
  }

  /** A cell put in a slot that has none, or in a new one. */
  function Put(slots: seq<Option<Cell>>, slot: nat, cell: Cell): (after: seq<Option<Cell>>)
    requires slot <= |slots|
  {
    if slot < |slots| then slots[slot := Some(cell)] else slots + [Some(cell)]
  }

  /** A cell fits if and only if some slot without one can have it, the bytes of dead
      cells reclaimed. */
  lemma FitsIfRoom(page: SlottedPage, cell: Cell)
    requires page.Ok()
    ensures page.FitsReusingSlot(cell.Length()) <==>
              exists slot :: 0 <= slot <= |page.slots| && page.CellAt(slot).None?
                             && SlottedPage(Put(page.slots, slot, cell), 0).Ok()
  {
    var slots := page.slots;
    forall slot | 0 <= slot <= |slots| && page.CellAt(slot).None?
      ensures SlottedPage(Put(slots, slot, cell), 0).Ok() <==>
                page.Reclaimable() >= cell.Length() + if slot < |slots| then 0 else SLOT_LEN
    {
      if slot < |slots| { LiveWith(slots, slot, Some(cell)); } else { LiveAppended(slots, Some(cell)); }
    }
    var tombstone := FirstTombstone(slots);
    var slot := if tombstone.Some? then tombstone.value else |slots|;
    assert page.CellAt(slot).None?;
    hide Put;
    if page.FitsReusingSlot(cell.Length()) {
      assert SlottedPage(Put(slots, slot, cell), 0).Ok();
    }
  }

  /** `insert_cell_reusing_slot` of a cell that fits. */
  function InsertReusing(page: SlottedPage, cell: Cell): (r: (SlottedPage, nat))
    requires page.Ok() && page.FitsReusingSlot(cell.Length())
    ensures r.0.Ok() && page.CellAt(r.1).None? && r.0.CellAt(r.1) == Some(cell)
    ensures forall s: nat :: s != r.1 ==> r.0.CellAt(s) == page.CellAt(s)
  {
    var tombstone := FirstTombstone(page.slots);
    if tombstone.None? then
      var packed := if page.FreeSpace() < SpaceNeeded(cell.Length()) then Compacted(page, 0) else page;
      LiveAppended(packed.slots, Some(cell));
      (packed.(slots := packed.slots + [Some(cell)]), |packed.slots|)
    else
      var slot := tombstone.value;
      var packed := if page.FreeSpace() < cell.Length() then Compacted(page, slot + 1) else page;
      LiveWith(packed.slots, slot, Some(cell));
      (packed.(slots := packed.slots[slot := Some(cell)]), slot)
  }

  function Deleted(page: SlottedPage, slot: nat): (r: SlottedPage)
    requires page.Ok() && page.CellAt(slot).Some?
    ensures r.Ok() && r.CellAt(slot).None? && forall s: nat :: s != slot ==> r.CellAt(s) == page.CellAt(s)
    ensures r.Reclaimable() == page.Reclaimable() + LengthOf(page.CellAt(slot))
  {
    LiveWith(page.slots, slot, None);
    SlottedPage(page.slots[slot := None], page.dead + LengthOf(page.slots[slot]))
  }

  /** `update_cell`: the cell replaced in its slot, or nothing if it does not fit
      on the page any more. */
  function Updated(page: SlottedPage, slot: nat, cell: Cell): (r: Option<SlottedPage>)
    requires page.Ok() && page.CellAt(slot).Some?
    ensures r.Some? <==> page.Reclaimable() + LengthOf(page.CellAt(slot)) >= cell.Length()
    ensures r.Some? ==>
              && r.value.Ok() && r.value.CellAt(slot) == Some(cell)
              && forall s: nat :: s != slot ==> r.value.CellAt(s) == page.CellAt(s)
  {
    var length := LengthOf(page.slots[slot]);
    LiveWith(page.slots, slot, Some(cell));
    if cell.Length() <= length then
      Some(SlottedPage(page.slots[slot := Some(cell)], page.dead + (length - cell.Length())))
    else if page.FreeSpace() >= cell.Length() - length then
      Some(page.(slots := page.slots[slot := Some(cell)]))
    else if page.Reclaimable() + length < cell.Length() then None
    else
      var without := Deleted(page, slot);
      var packed := if without.FreeSpace() < cell.Length() then Compacted(without, slot + 1) else without;
      LiveWith(packed.slots, slot, Some(cell));
      Some(packed.(slots := packed.slots[slot := Some(cell)]))
  }

  /** `live_cells`. */
  function LiveCells(slots: seq<Option<Cell>>): (n: nat) {
    if slots == [] then 0 else LiveCells(slots[..|slots| - 1]) + if slots[|slots| - 1].Some? then 1 else 0
  }

  lemma {:induction false} LiveCellsNone(slots: seq<Option<Cell>>)
    ensures LiveCells(slots) == 0 <==> forall s :: 0 <= s < |slots| ==> slots[s].None?
  {
    if slots != [] {
      var n := |slots| - 1;
      LiveCellsNone(slots[..n]);
      assert forall s :: 0 <= s < n ==> slots[..n][s] == slots[s];
    }
  }

  lemma {:induction false} LiveCellsWithout(slots: seq<Option<Cell>>, s: nat)
    requires s < |slots| && slots[s].Some?
    ensures LiveCells(slots[s := None]) == LiveCells(slots) - 1
  {
    var n := |slots| - 1;
    if s == n {
      assert slots[s := None][..n] == slots[..n];
    } else {
      assert slots[s := None][..n] == slots[..n][s := None];
      LiveCellsWithout(slots[..n], s);
    }
  }

  /** A page with one live cell left is empty without it. */
  lemma LastCell(page: SlottedPage, slot: nat)
    requires page.Ok() && page.CellAt(slot).Some?
    ensures LiveCells(page.slots) == 1 <==> Deleted(page, slot).IsEmpty()
  {
    LiveCellsWithout(page.slots, slot);
    LiveCellsNone(page.slots[slot := None]);
  }
}
