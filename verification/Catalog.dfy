/** The catalog's chain of pages (`src/catalog.rs`): a cell goes on the first with
    room, and `rebuilt_pages` counts the pages that makes without writing any. */
module Catalog {
  import opened Values
  import opened Slotted

  /** A page of the chain: its successor, 0 for none, its cells, and the free
      space left. */
  datatype CatalogPage = CatalogPage(next: PageId, cells: seq<seq<byte>>, free: int)

  const FIRST: PageId := 1

  /** The first with room takes it, or one more does. */
  function FirstFit(rooms: seq<int>, needed: nat): (after: seq<int>) {
    if rooms == [] then [EMPTY_ROOM - needed]
    else if rooms[0] >= needed then [rooms[0] - needed] + rooms[1..]
    else [rooms[0]] + FirstFit(rooms[1..], needed)
  }

  function FirstFits(rooms: seq<int>, lengths: seq<nat>): (after: seq<int>)
    decreases |lengths|
  {
    if lengths == [] then rooms
    else FirstFits(FirstFit(rooms, SpaceNeeded(lengths[0])), lengths[1..])
  }

  lemma {:induction false} FirstFitAt(rooms: seq<int>, needed: nat, i: nat)
    requires i <= |rooms| && forall j :: 0 <= j < i ==> rooms[j] < needed
    ensures i == |rooms| ==> FirstFit(rooms, needed) == rooms + [EMPTY_ROOM - needed]
    ensures i < |rooms| && rooms[i] >= needed ==> FirstFit(rooms, needed) == rooms[i := rooms[i] - needed]
  {
    if i > 0 {
      var rest := rooms[1..];
      assert FirstFit(rooms, needed) == [rooms[0]] + FirstFit(rest, needed);
      hide FirstFit;
      FirstFitAt(rest, needed, i - 1);
      if i == |rooms| {
        assert [rooms[0]] + (rest + [EMPTY_ROOM - needed]) == rooms + [EMPTY_ROOM - needed];
      } else if rooms[i] >= needed {
        assert [rooms[0]] + rest[i - 1 := rest[i - 1] - needed] == rooms[i := rooms[i] - needed];
      }
    }
  }

  lemma {:induction false} FirstFitsOneMore(rooms: seq<int>, lengths: seq<nat>, i: nat)
    requires i < |lengths|
    ensures FirstFits(rooms, lengths[..i + 1]) == FirstFit(FirstFits(rooms, lengths[..i]), SpaceNeeded(lengths[i]))
    decreases i
  {
    var first := FirstFit(rooms, SpaceNeeded(lengths[0]));
    assert lengths[..i + 1][1..] == lengths[1..][..i];
    if i == 0 {
      assert lengths[..1][1..] == [] && lengths[..0] == [];
    } else {
      assert lengths[..i][1..] == lengths[1..][..i - 1];
      FirstFitsOneMore(first, lengths[1..], i - 1);
    }
  }

  /** `rebuilt_pages`: how many pages the cells of these lengths take. */
  method RebuiltPages(lengths: seq<nat>) returns (pages: nat)
    ensures pages == |FirstFits([EMPTY_ROOM], lengths)|
  {
    var rooms: seq<int> := [EMPTY_ROOM];
    assert lengths[..0] == [];
    for i := 0 to |lengths|
      invariant rooms == FirstFits([EMPTY_ROOM], lengths[..i])
    {
      hide FirstFit, FirstFits;
      FirstFitsOneMore([EMPTY_ROOM], lengths, i);
      var needed := SpaceNeeded(lengths[i]);
      var at := 0;
      while at < |rooms| && rooms[at] < needed
        invariant at <= |rooms| && forall j :: 0 <= j < at ==> rooms[j] < needed
      {
        at := at + 1;
      }
      FirstFitAt(rooms, needed, at);
      rooms := if at < |rooms| then rooms[at := rooms[at] - needed] else rooms + [EMPTY_ROOM - needed];
    }
    assert lengths[..|lengths|] == lengths;
    pages := |rooms|;
  }

  function RoomsOf(pages: map<PageId, CatalogPage>, chain: seq<PageId>): (rooms: seq<int>) {
    seq(|chain|, i requires 0 <= i < |chain| => if chain[i] in pages then pages[chain[i]].free else 0)
  }

  function CellsOf(pages: map<PageId, CatalogPage>, chain: seq<PageId>): (cells: seq<seq<seq<byte>>>) {
    seq(|chain|, i requires 0 <= i < |chain| => if chain[i] in pages then pages[chain[i]].cells else [])
  }

  ghost predicate Linked(pages: map<PageId, CatalogPage>, chain: seq<PageId>) {
    && (forall p <- chain :: p in pages)
    && (forall i :: 0 <= i < |chain| ==> chain[i] != 0)
    && (forall i, j :: 0 <= i < j < |chain| ==> chain[i] != chain[j])
    && (forall i :: 0 <= i < |chain| ==>
          chain[i] in pages && pages[chain[i]].next == (if i + 1 < |chain| then chain[i + 1] else 0))
  }

  /** A new page linked to the end. */
  lemma LinkedOn(pages: map<PageId, CatalogPage>, chain: seq<PageId>, id: PageId)
    requires Linked(pages, chain) && chain != [] && id !in pages && id != 0
    ensures var last := chain[|chain| - 1];
            var after := pages[last := pages[last].(next := id)][id := CatalogPage(0, [], EMPTY_ROOM)];
            && Linked(after, chain + [id])
            && RoomsOf(after, chain + [id]) == RoomsOf(pages, chain) + [EMPTY_ROOM]
            && CellsOf(after, chain + [id]) == CellsOf(pages, chain) + [[]]
  {
    assert id !in chain;
  }

  /** A page of the chain given a cell. */
  lemma CellOn(pages: map<PageId, CatalogPage>, chain: seq<PageId>, at: nat, page: CatalogPage)
    requires Linked(pages, chain) && at < |chain| && page.next == pages[chain[at]].next
    ensures var after := pages[chain[at] := page];
            && Linked(after, chain)
            && RoomsOf(after, chain) == RoomsOf(pages, chain)[at := page.free]
            && CellsOf(after, chain) == CellsOf(pages, chain)[at := page.cells]
  {
  }

  class Pages {
    var pages: map<PageId, CatalogPage>
    /** Every page is below. */
    var count: nat
    ghost var chain: seq<PageId>

    ghost predicate Valid()
      reads this
    {
      Linked(pages, chain) && chain != [] && chain[0] == FIRST && count > 0 && forall p <- pages :: p < count
    }

    constructor ()
      ensures Valid() && chain == [FIRST] && pages == map[FIRST := CatalogPage(0, [], EMPTY_ROOM)]
    {
      pages, count, chain := map[FIRST := CatalogPage(0, [], EMPTY_ROOM)], 2, [FIRST];
    }

    /** `append_cell`: on the first page of the chain with room, or on a new one
        chained to the end. It ends for every cell that fits an empty page. */
    method AppendCell(cell: seq<byte>) returns (ghost at: nat)
      requires Valid() && SpaceNeeded(|cell|) <= EMPTY_ROOM
      modifies this
      ensures Valid() && old(chain) <= chain
      ensures RoomsOf(pages, chain) == FirstFit(old(RoomsOf(pages, chain)), SpaceNeeded(|cell|))
      ensures |chain| <= |old(chain)| + 1 && at < |chain|
      ensures var cells := old(CellsOf(pages, chain)) + seq(|chain| - |old(chain)|, _ => []);
              CellsOf(pages, chain) == cells[at := cells[at] + [cell]]
    {
      hide FirstFit, Linked, RoomsOf, CellsOf;
      var needed := SpaceNeeded(|cell|);
      var id := FIRST;
      WhereNext(pages, chain, 0);
      CellCount(pages, chain);
      ghost var rooms, cells := RoomsOf(pages, chain), CellsOf(pages, chain);
      at := 0;
      while pages[id].free < needed
        invariant Valid() && old(chain) <= chain && at < |chain| && chain[at] == id && id in pages
        invariant |chain| == |old(chain)| + if at < |rooms| then 0 else 1
        invariant RoomsOf(pages, chain) == if at < |rooms| then rooms else rooms + [EMPTY_ROOM]
        invariant CellsOf(pages, chain) == if at < |rooms| then cells else cells + [[]]
        invariant at <= |rooms| && forall j :: 0 <= j < at ==> rooms[j] < needed
        decreases |rooms| - at
      {
        WhereNext(pages, chain, at);
        if pages[id].next == 0 {
          var more := count;
          LinkedOn(pages, chain, more);
          pages := pages[id := pages[id].(next := more)][more := CatalogPage(0, [], EMPTY_ROOM)];
          count, chain := count + 1, chain + [more];
          id := more;
        } else {
          id := pages[id].next;
        }
        at := at + 1;
      }
      FirstFitAt(rooms, needed, at);
      WhereNext(pages, chain, at);
      if at == |rooms| {
        assert (rooms + [EMPTY_ROOM])[at := EMPTY_ROOM - needed] == rooms + [EMPTY_ROOM - needed];
      }
      var page := pages[id].(cells := pages[id].cells + [cell], free := pages[id].free - needed);
      CellOn(pages, chain, at, page);
      CellCount(pages, chain);
      ghost var found := CellsOf(pages, chain);
      assert found == cells + seq(|chain| - |old(chain)|, _ => []) && found[at] == pages[id].cells;
      pages := pages[id := page];
    }

    /** The pages of the chain, counted along it. */
    method Count() returns (n: nat)
      requires Valid()
      ensures n == |chain|
    {
      hide Linked;
      WhereNext(pages, chain, 0);
      var id := FIRST;
      n := 1;
      while pages[id].next != 0
        invariant 0 < n <= |chain| && id == chain[n - 1] && id in pages
        invariant pages[id].next == 0 <==> n == |chain|
        decreases |chain| - n
      {
        WhereNext(pages, chain, n - 1);
        id := pages[id].next;
        n := n + 1;
        WhereNext(pages, chain, n - 1);
      }
    }
  }

  lemma WhereNext(pages: map<PageId, CatalogPage>, chain: seq<PageId>, at: nat)
    requires Linked(pages, chain) && at < |chain|
    ensures |RoomsOf(pages, chain)| == |CellsOf(pages, chain)| == |chain|
    ensures chain[at] in pages && RoomsOf(pages, chain)[at] == pages[chain[at]].free
    ensures CellsOf(pages, chain)[at] == pages[chain[at]].cells
    ensures pages[chain[at]].next == 0 <==> at == |chain| - 1
    ensures pages[chain[at]].next != 0 ==> at + 1 < |chain| && pages[chain[at]].next == chain[at + 1] && chain[at + 1] in pages
  {
    assert pages[chain[at]].next == if at + 1 < |chain| then chain[at + 1] else 0;
    assert at + 1 < |chain| ==> chain[at + 1] in chain && chain[at + 1] != 0;
  }

  /** The cells put on pages, a first fit: which page of the chain each went to. */
  ghost predicate Holds(found: seq<seq<seq<byte>>>, cells: seq<seq<byte>>, at: seq<nat>) {
    && |at| == |cells| && (forall i :: 0 <= i < |at| ==> at[i] < |found|)
    && forall p :: 0 <= p < |found| ==> found[p] == Given(cells, at, p)
  }

  /** The cells that went to page `p`, in order. */
  ghost function Given(cells: seq<seq<byte>>, at: seq<nat>, p: nat): (given: seq<seq<byte>>)
    requires |at| == |cells|
  {
    if cells == [] then []
    else
      var n := |cells| - 1;
      Given(cells[..n], at[..n], p) + if at[n] == p then [cells[n]] else []
  }

  lemma HoldsOneMore(
    found: seq<seq<seq<byte>>>, cells: seq<seq<byte>>, at: seq<nat>, cell: seq<byte>, k: nat, more: nat)
    requires Holds(found, cells, at) && more <= 1 && k < |found| + more
    ensures var grown := found + seq(more, _ => []);
            Holds(grown[k := grown[k] + [cell]], cells + [cell], at + [k])
  {
    var grown := found + seq(more, _ => []);
    assert (cells + [cell])[..|cells|] == cells && (at + [k])[..|cells|] == at;
    NoneGiven(cells, at, |found|);
    forall p | 0 <= p < |grown| ensures grown[k := grown[k] + [cell]][p] == Given(cells + [cell], at + [k], p) {
      assert grown[p] == Given(cells, at, p);
    }
  }

  lemma {:induction false} NoneGiven(cells: seq<seq<byte>>, at: seq<nat>, n: nat)
    requires |at| == |cells| && forall i :: 0 <= i < |at| ==> at[i] < n
    ensures Given(cells, at, n) == []
  {
    if cells != [] {
      var k := |cells| - 1;
      assert Given(cells, at, n) == Given(cells[..k], at[..k], n);
      NoneGiven(cells[..k], at[..k], n);
    }
  }

  lemma NoneHeld(pages: map<PageId, CatalogPage>, chain: seq<PageId>)
    requires chain == [FIRST] && pages == map[FIRST := CatalogPage(0, [], EMPTY_ROOM)]
    ensures Holds(CellsOf(pages, chain), [], []) && RoomsOf(pages, chain) == [EMPTY_ROOM]
  {
  }

  lemma CellCount(pages: map<PageId, CatalogPage>, chain: seq<PageId>)
    ensures |CellsOf(pages, chain)| == |RoomsOf(pages, chain)| == |chain|
  {
  }

  /** The count is exact: cells appended one after another to a new catalog chain
      as many pages as `rebuilt_pages` says. */
  method PredictPages(cells: seq<seq<byte>>) returns (catalog: Pages, predicted: nat, ghost at: seq<nat>)
    requires forall c <- cells :: SpaceNeeded(|c|) <= EMPTY_ROOM
    ensures fresh(catalog) && catalog.Valid() && Holds(CellsOf(catalog.pages, catalog.chain), cells, at)
    ensures var lengths := seq(|cells|, i requires 0 <= i < |cells| => |cells[i]|);
            && RoomsOf(catalog.pages, catalog.chain) == FirstFits([EMPTY_ROOM], lengths)
            && predicted == |catalog.chain| == |FirstFits([EMPTY_ROOM], lengths)|
  {
    var lengths := seq(|cells|, i requires 0 <= i < |cells| => |cells[i]|);
    hide FirstFit, FirstFits, CellsOf, Holds, RoomsOf, Linked;
    predicted := RebuiltPages(lengths);
    catalog := new Pages();
    at := [];
    NoneHeld(catalog.pages, catalog.chain);
    assert lengths[..0] == [] && cells[..0] == [];
    assert FirstFits([EMPTY_ROOM], lengths[..0]) == [EMPTY_ROOM] by { NoneFits(); }
    for i := 0 to |cells|
      invariant catalog.Valid() && fresh(catalog)
      invariant Holds(CellsOf(catalog.pages, catalog.chain), cells[..i], at)
      invariant RoomsOf(catalog.pages, catalog.chain) == FirstFits([EMPTY_ROOM], lengths[..i])
    {
      FirstFitsOneMore([EMPTY_ROOM], lengths, i);
      assert cells[i] in cells && cells[..i] + [cells[i]] == cells[..i + 1];
      at := AppendHeld(catalog, cells[i], cells[..i], at);
    }
    assert lengths[..|lengths|] == lengths && cells[..|cells|] == cells;
    CellCount(catalog.pages, catalog.chain);
  }

  lemma NoneFits()
    ensures FirstFits([EMPTY_ROOM], []) == [EMPTY_ROOM]
  {
  }

  method AppendHeld(catalog: Pages, cell: seq<byte>, ghost cells: seq<seq<byte>>, ghost at: seq<nat>)
    returns (ghost after: seq<nat>)
    requires catalog.Valid() && SpaceNeeded(|cell|) <= EMPTY_ROOM
    requires Holds(CellsOf(catalog.pages, catalog.chain), cells, at)
    modifies catalog
    ensures catalog.Valid() && Holds(CellsOf(catalog.pages, catalog.chain), cells + [cell], after)
    ensures RoomsOf(catalog.pages, catalog.chain)
         == FirstFit(old(RoomsOf(catalog.pages, catalog.chain)), SpaceNeeded(|cell|))
  {
    hide FirstFit, Linked, CellsOf, RoomsOf, Holds;
    ghost var found, n := CellsOf(catalog.pages, catalog.chain), |catalog.chain|;
    CellCount(catalog.pages, catalog.chain);
    ghost var k := catalog.AppendCell(cell);
    HoldsOneMore(found, cells, at, cell, k, |catalog.chain| - n);
    after := at + [k];
  }
}
