/** Records in a collection's pages (`src/data.rs`): packed into data pages, the
    large ones in overflow chains. */
module Records {
  import opened Values
  import opened Slotted
  import opened Chains
  import opened FreeSpaces
  import opened PageOwners

  /** The pieces a chain's pages hold. */
  function Chunks(bytes: seq<byte>): (chunks: seq<seq<byte>>)
    ensures bytes != [] ==> chunks != []
  {
    if bytes == [] then []
    else if |bytes| <= CAPACITY then [bytes]
    else [bytes[..CAPACITY]] + Chunks(bytes[CAPACITY..])
  }

  function Padded(chunk: seq<byte>): (data: seq<byte>)
    requires |chunk| <= CAPACITY
    ensures |data| == CAPACITY && data[..|chunk|] == chunk
  {
    chunk + seq(CAPACITY - |chunk|, _ => 0)
  }

  lemma {:induction false} ChunksFit(bytes: seq<byte>)
    ensures forall c <- Chunks(bytes) :: |c| <= CAPACITY
    decreases |bytes|
  {
    if |bytes| > CAPACITY { ChunksFit(bytes[CAPACITY..]); }
  }

  function LinkAt(chain: seq<PageId>, chunks: seq<seq<byte>>, i: nat): (content: Content)
    requires i < |chain| == |chunks| && |chunks[i]| <= CAPACITY
  {
    Link(if i + 1 < |chain| then chain[i + 1] else 0, Padded(chunks[i]))
  }

  /** Once each page of a chain has its link and piece, the chain holds it all. */
  lemma {:induction false} WrittenHolds(pages: Pages, chain: seq<PageId>, bytes: seq<byte>)
    requires bytes != [] && |chain| == |Chunks(bytes)| && 0 !in chain
    requires forall c <- Chunks(bytes) :: |c| <= CAPACITY
    requires forall i :: 0 <= i < |chain| ==> chain[i] in pages && pages[chain[i]] == LinkAt(chain, Chunks(bytes), i)
    ensures HoldsBody(pages, chain, bytes)
    decreases |bytes|
  {
    var chunks := Chunks(bytes);
    assert pages[chain[0]] == LinkAt(chain, chunks, 0);
    if |bytes| > CAPACITY {
      var rest := Chunks(bytes[CAPACITY..]);
      assert chunks[1..] == rest;
      assert chain[1] in chain;
      assert forall c <- rest :: c in chunks;
      forall i | 0 <= i < |chain[1..]|
        ensures chain[1..][i] in pages && pages[chain[1..][i]] == LinkAt(chain[1..], rest, i)
      {
        assert pages[chain[i + 1]] == LinkAt(chain, chunks, i + 1);
      }
      WrittenHolds(pages, chain[1..], bytes[CAPACITY..]);
    }
  }

  /** What the free-space map knows of a page once told its room. */
  function Noted(freeOf: map<PageId, nat>, current: PageId, p: PageId, room: int): (after: map<PageId, nat>) {
    var enough := if p in freeOf then MIN_ROOM_TO_STAY else MIN_ROOM;
    if p != current && room >= enough then freeOf[p := room] else freeOf - {p}
  }

  lemma NotedOk(pages: Pages, current: PageId, freeOf: map<PageId, nat>, p: PageId, page: SlottedPage)
    requires RoomOk(pages, current, freeOf)
    ensures RoomOk(pages[p := Data(page)], current, Noted(freeOf, current, p, page.Reclaimable()))
  {
    hide SlottedPage.Reclaimable;
  }

  function DataPages(pages: Pages): (data: map<PageId, SlottedPage>) {
    map p <- pages | pages[p].Data? :: pages[p].page
  }

  /** Data pages are as they were: so is what the map knows. */
  ghost predicate DataStays(pages: Pages, after: Pages) {
    DataPages(pages) == DataPages(after)
  }

  lemma DataStaysAt(pages: Pages, after: Pages)
    requires DataStays(pages, after)
    ensures forall p <- pages :: pages[p].Data? ==> p in after && after[p] == pages[p]
  {
    forall p | p in pages && pages[p].Data? ensures p in after && after[p] == pages[p] {
      assert p in DataPages(pages);
      assert DataPages(after)[p] == pages[p].page;
    }
  }

  lemma DataPut(pages: Pages, p: PageId, page: SlottedPage)
    ensures DataPages(pages[p := Data(page)]) == DataPages(pages)[p := page]
    ensures DataPages(pages[p := Freed]) == DataPages(pages) - {p}
  {
  }

  /** What placing a cell depends on and changes: the data pages, which one is
      current, and the free-space map. */
  datatype View = View(data: map<PageId, SlottedPage>, current: PageId, freeOf: map<PageId, nat>)

  /** A page replaced as the current one: freed if empty, else its room noted. */
  function Left(v: View, p: PageId): (after: View) {
    if p == 0 || p !in v.data then v
    else if v.data[p].IsEmpty() then v.(data := v.data - {p}, freeOf := v.freeOf - {p})
    else v.(freeOf := Noted(v.freeOf, v.current, p, v.data[p].Reclaimable()))
  }

  predicate FitsIn(v: View, p: PageId, cell: Cell) {
    p in v.data && v.data[p].Ok() && v.data[p].FitsReusingSlot(cell.Length())
  }

  ghost predicate Tightest(v: View, cell: Cell, p: PageId) {
    IsTightest(v.freeOf, SpaceNeeded(cell.Length()), p) && FitsIn(v, p, cell)
  }

  /** Where `place_cell` puts a cell, and what it leaves. */
  ghost predicate PlacesAt(v: View, after: View, cell: Cell, p: PageId) {
    if v.current != 0 && FitsIn(v, v.current, cell) then
      p == v.current && after == v.(data := v.data[p := InsertReusing(v.data[p], cell).0])
    else if p in v.data then
      && Tightest(v, cell, p)
      && var page := InsertReusing(v.data[p], cell).0;
         after == v.(data := v.data[p := page], freeOf := Noted(v.freeOf, v.current, p, page.Reclaimable()))
    else
      && p != 0 && p != v.current && (forall q <- v.freeOf :: v.freeOf[q] < SpaceNeeded(cell.Length()))
      && EmptyPage.FitsReusingSlot(cell.Length())
      && after == Left(View(v.data[p := InsertReusing(EmptyPage, cell).0], p, v.freeOf), v.current)
  }

  lemma RoomStays(pages: Pages, after: Pages, current: PageId, freeOf: map<PageId, nat>)
    requires RoomOk(pages, current, freeOf) && DataStays(pages, after)
    ensures RoomOk(after, current, freeOf)
  {
    DataStaysAt(pages, after);
    hide DataStays;
  }

  datatype Outcome = Done(loc: Loc) | NoRecord | TooLong

  class Collection {
    var pages: Pages
    var count: nat
    var freeList: seq<PageId>
    /** The data page the next insert tries first; 0 for none. */
    var current: PageId
    const free: FreeSpace
    ghost var owner: map<PageId, Owner>
    ghost var chains: map<PageId, ChainInfo>
    /** The pages that are somebody else's, and stay so. */
    ghost const others: set<PageId>
    /** The document last written at each location. */
    ghost var records: map<Loc, Record>

    /** A new collection, in a file whose other pages are free or somebody
        else's. */
    constructor (file: Pages, n: nat, list: seq<PageId>)
      requires 0 < n && 0 !in list && Distinct(list) && (forall p: PageId :: p in file <==> p < n)
      requires forall p <- list :: p < n
      requires forall p <- file :: file[p] == if p in list then Freed else Foreign
      ensures Valid() && current == 0 && records == map[] && fresh(free) && pages == file
      ensures others == set p <- file | p !in list
    {
      pages, count, freeList, current := file, n, list, 0;
      free := new FreeSpace();
      owner := map p <- file :: if p in list then OnFreeList else OfOthers;
      chains, records, others := map[], map[], set p <- file | p !in list;
      new;
      hide Distinct;
    }

    ghost function W(): (w: World)
      reads this
    {
      World(pages, count, freeList, current, owner, chains, records, others)
    }

    ghost predicate Holds(spare: PageId, pending: Option<PageId>, hole: Option<Loc>)
      reads this, free
    {
      free.Valid() && Core(W(), spare, pending, hole) && RoomOk(pages, current, free.freeOf)
    }

    ghost predicate Valid()
      reads this, free
    {
      Holds(0, None, None)
    }

    ghost function V(): (v: View)
      reads this, free
    {
      View(DataPages(pages), current, free.freeOf)
    }

    method AllocatePage() returns (id: PageId)
      modifies this`pages, this`count, this`freeList
      ensures id == NextPage(old(freeList), old(count))
      ensures freeList == if old(freeList) != [] then old(freeList)[1..] else []
      ensures count == if old(freeList) != [] then old(count) else old(count) + 1
      ensures pages == if old(freeList) != [] then old(pages) else old(pages)[id := Foreign]
    {
      if freeList != [] {
        id := freeList[0];
        freeList := freeList[1..];
      } else {
        id := count;
        count := count + 1;
        pages := pages[id := Foreign];
      }
    }

    method FreePage(id: PageId)
      modifies this`pages, this`freeList
      ensures pages == old(pages)[id := Freed] && freeList == [id] + old(freeList)
    {
      pages := pages[id := Freed];
      freeList := [id] + freeList;
    }

    /** `note_room`. */
    method NoteRoom(p: PageId, page: SlottedPage)
      requires free.Valid() && page.Ok()
      modifies free
      ensures free.Valid() && free.freeOf == Noted(old(free.freeOf), current, p, page.Reclaimable())
    {
      var room := page.Reclaimable();
      var enough := if p in free.freeOf then MIN_ROOM_TO_STAY else MIN_ROOM;
      if p != current && room >= enough {
        free.Set(p, room);
      } else {
        free.Remove(p);
      }
    }

    /** `write_chain`: `bytes` in newly allocated pages, all allocated before any
        is written. */
    method WriteChain(bytes: seq<byte>, ghost hole: Option<Loc>) returns (first: PageId)
      requires Holds(0, None, hole) && bytes != []
      modifies this`pages, this`count, this`freeList, this`owner, this`chains
      ensures Holds(0, Some(first), hole) && chains[first].body == bytes
      ensures DataStays(old(pages), pages)
    {
      hide Partition, DataOk, RecordsOk, ChainsOk, RoomOk, HoldsBody, LinkAt, Distinct;
      ghost var w := W();
      var chunks := Chunks(bytes);
      ChunksFit(bytes);
      var chain := AllocateAll(|chunks|, w);
      WriteLinks(chain, chunks, w);
      WrittenHolds(pages, chain, bytes);
      ghost var w' := Chained(w, pages, chain, bytes, freeList, count, hole);
      owner, chains := w'.owner, w'.chains;
      first := chain[0];
      RoomStays(w.pages, pages, current, free.freeOf);
    }

    method AllocateAll(n: nat, ghost w: World) returns (chain: seq<PageId>)
      requires Partition(w) && pages == w.pages && freeList == w.freeList && count == w.count
      modifies this`pages, this`count, this`freeList
      ensures |chain| == n && Took(w, chain, freeList, count) && 0 !in chain
      ensures (forall p: PageId :: p in pages <==> p < count) && SameOff(w.pages, pages, chain)
      ensures forall p <- chain :: p in pages
    {
      chain := [];
      while |chain| < n
        invariant |chain| <= n && Took(w, chain, freeList, count) && 0 !in chain
        invariant forall p: PageId :: p in pages <==> p < count
        invariant SameOff(w.pages, pages, chain) && forall p <- chain :: p < count
      {
        TookOne(w, chain, freeList, count);
        TookBound(w, chain, freeList, count);
        hide Took, Partition;
        var id := AllocatePage();
        chain := chain + [id];
      }
    }

    method WriteLinks(chain: seq<PageId>, chunks: seq<seq<byte>>, ghost w: World)
      requires |chain| == |chunks| && Distinct(chain) && (forall c <- chunks :: |c| <= CAPACITY)
      requires (forall p: PageId :: p in pages <==> p < count) && SameOff(w.pages, pages, chain)
      requires forall p <- chain :: p in pages
      modifies this`pages
      ensures (forall p: PageId :: p in pages <==> p < count) && SameOff(w.pages, pages, chain)
      ensures forall i :: 0 <= i < |chain| ==> chain[i] in pages && pages[chain[i]] == LinkAt(chain, chunks, i)
    {
      for i := 0 to |chunks|
        invariant pages.Keys == old(pages).Keys && SameOff(w.pages, pages, chain)
        invariant forall j :: 0 <= j < i ==> chain[j] in pages && pages[chain[j]] == LinkAt(chain, chunks, j)
      {
        hide LinkAt;
        assert chain[i] in chain;
        pages := pages[chain[i] := LinkAt(chain, chunks, i)];
      }
    }

    /** `free_chain`: a record's chain back on the free list, walked before any
        page of it is freed. */
    method FreeChain(first: PageId, len: nat, ghost loc: Loc)
      requires Valid() && first in chains && chains[first].user == Some(loc) && len == |chains[first].body|
      modifies this`pages, this`freeList, this`owner, this`chains
      ensures Holds(0, None, Some(loc)) && DataStays(old(pages), pages)
    {
      hide Partition, DataOk, RecordsOk, ChainsOk, RoomOk, HoldsBody;
      ghost var w := W();
      ghost var chain := chains[first].pages;
      ChainOfOwner(w, first);
      OwnedOne(w.owner, w.chains, first);
      OwnersApart(w.owner, first, chain);
      assert IsChain(pages, first, len, chain, chains[first].body);
      var found := WalkChain(pages, first, len);
      ChainIsUnique(pages, found.value.chain, found.value.body, chain, chains[first].body);
      GiveAll(found.value.chain, w);
      ChainFreed(w, first, loc, pages, freeList);
      ghost var w' := WithoutChain(w, first, pages, freeList);
      GivenDataStays(w, pages, chain, freeList);
      RoomStays(w.pages, pages, current, free.freeOf);
      owner, chains := w'.owner, w'.chains;
    }

    method GiveAll(chain: seq<PageId>, ghost w: World)
      requires Partition(w) && pages == w.pages && freeList == w.freeList && Distinct(chain)
      requires forall p <- chain :: p in w.pages && p !in w.freeList
      modifies this`pages, this`freeList
      ensures Gave(w, chain, pages, freeList)
    {
      for i := 0 to |chain|
        invariant Gave(w, chain[..i], pages, freeList)
      {
        hide Gave, Partition;
        assert chain[i] in chain && chain[i] !in chain[..i];
        GaveOne(w, chain[..i], chain[i], pages, freeList);
        FreePage(chain[i]);
        assert chain[..i + 1] == chain[..i] + [chain[i]];
      }
      assert chain[..|chain|] == chain;
    }

    /** `write_cell`: the cell that will represent a document, inline if that fits
        on an empty page; nothing if it is longer than a document can be. */
    method WriteCell(id: DocId, bytes: seq<byte>, ghost hole: Option<Loc>)
      returns (cell: Option<Cell>, ghost pending: Option<PageId>)
      requires Holds(0, None, hole)
      modifies this`pages, this`count, this`freeList, this`owner, this`chains
      ensures Holds(0, pending, hole) && DataStays(old(pages), pages)
      ensures cell.None? <==> |bytes| > MAX_LEN
      ensures cell.Some? ==>
                CellFor(cell.value, Record(id, bytes), chains, pending) && Fits(cell.value)
                && cell.value.Length() == CellLength(bytes)
      ensures cell.None? ==> pending.None? && V() == old(V())
    {
      hide Holds;
      if EMPTY_ROOM >= SpaceNeeded(17 + |bytes|) {
        return Some(Inline(id, bytes)), None;
      }
      if |bytes| > MAX_LEN {
        return None, None;
      }
      var first := WriteChain(bytes, hole);
      cell, pending := Some(Overflow(id, |bytes|, first)), Some(first);
      assert first in chains by { PendingIn(first, hole); }
    }

    lemma PendingIn(first: PageId, hole: Option<Loc>)
      requires Holds(0, Some(first), hole)
      ensures first in chains
    {
      hide Partition, DataOk, RecordsOk, Ownership, ChainOk;
    }

    /** A cell into a page with room for it. */
    method InsertInto(p: PageId, cell: Cell, ghost record: Record, ghost pending: Option<PageId>) returns (loc: Loc)
      requires Holds(0, pending, None) && CellFor(cell, record, chains, pending)
      requires p in pages && pages[p].Data? && pages[p].page.Ok() && pages[p].page.FitsReusingSlot(cell.Length())
      modifies this`pages, this`records, this`chains, free
      ensures Valid() && loc !in old(records) && records == old(records)[loc := record]
      ensures loc.page == p
      ensures var page := InsertReusing(old(pages)[p].page, cell).0;
              V() == View(DataPages(old(pages))[p := page], current,
                          if p == current then old(free.freeOf) else Noted(old(free.freeOf), current, p, page.Reclaimable()))
    {
      hide Partition, DataOk, RecordsOk, ChainsOk, RoomOk, InsertReusing;
      var (page, slot) := InsertReusing(pages[p].page, cell);
      loc := Loc(p, slot);
      NotARecord(W(), loc);
      CellPut(W(), loc, page, cell, record, 0, pending, None);
      ghost var w' := PutIn(W(), loc, page, record, pending);
      NotedOk(pages, current, free.freeOf, p, page);
      DataPut(pages, p, page);
      hide DataPages;
      if p != current {
        NoteRoom(p, page);
      } else {
        CurrentIsOut(pages, current, free.freeOf, page);
      }
      pages := pages[p := Data(page)];
      records, chains := w'.records, w'.chains;
    }

    /** `place_cell`: into the current page if it fits there, else the fullest
        older page it fits in, else a new page, which becomes current. */
    method PlaceCell(cell: Cell, ghost record: Record, ghost pending: Option<PageId>) returns (loc: Loc)
      requires Holds(0, pending, None) && CellFor(cell, record, chains, pending) && Fits(cell)
      modifies this, free
      ensures Valid() && loc !in old(records) && records == old(records)[loc := record]
      ensures PlacesAt(old(V()), V(), cell, loc.page)
    {
      hide Partition, RecordsOk, ChainsOk, CellFor, SlottedPage.FitsReusingSlot, SlottedPage.Ok, InsertReusing, Noted;
      if current != 0 && pages[current].page.FitsReusingSlot(cell.Length()) {
        loc := InsertInto(current, cell, record, pending);
        return;
      }
      var page := free.Find(SpaceNeeded(cell.Length()));
      if page.Some? {
        // The map is exact: a page it finds has room.
        RoomFits(pages, current, free.freeOf, page.value, cell.Length());
        loc := InsertInto(page.value, cell, record, pending);
        return;
      }
      loc := InsertNew(cell, record, pending);
    }

    method InsertNew(cell: Cell, ghost record: Record, ghost pending: Option<PageId>) returns (loc: Loc)
      requires Holds(0, pending, None) && CellFor(cell, record, chains, pending) && Fits(cell)
      modifies this, free
      ensures Valid() && loc !in old(records) && records == old(records)[loc := record]
      ensures loc.page != 0 && loc.page != old(current) && loc.page !in DataPages(old(pages))
      ensures EmptyPage.Ok() && EmptyPage.FitsReusingSlot(cell.Length())
      ensures V() == Left(View(DataPages(old(pages))[loc.page := InsertReusing(EmptyPage, cell).0], loc.page, old(free.freeOf)), old(current))
    {
      hide Partition, DataOk, RecordsOk, ChainsOk, RoomOk, InsertReusing, WithNewPage, DataPages, Left, Noted;
      ghost var w := W();
      var (page, slot) := InsertReusing(EmptyPage, cell);
      NewPlaced(w, cell, record, pending, page, slot);
      NewIsNotCurrent(w, pending);
      ghost var w' := Placed(w, record, pending, page, slot);
      hide Placed, CellFor, SlottedPage.Ok, SlottedPage.CellAt, SlottedPage.FitsReusingSlot, Core;
      var replaced := current;
      var id := AddPage(page);
      loc := Loc(id, slot);
      current, owner, records, chains := id, w'.owner, w'.records, w'.chains;
      assert W() == w';
      LeaveCurrent(replaced);
    }

    method AddPage(page: SlottedPage) returns (id: PageId)
      requires RoomOk(pages, current, free.freeOf) && NextPage(freeList, count) != current
      requires var next := NextPage(freeList, count); next in pages ==> !pages[next].Data?
      modifies this`pages, this`count, this`freeList
      ensures id == NextPage(old(freeList), old(count))
      ensures freeList == if old(freeList) != [] then old(freeList)[1..] else []
      ensures count == if old(freeList) != [] then old(count) else old(count) + 1
      ensures pages == old(pages)[id := Data(page)] && RoomOk(pages, id, free.freeOf)
      ensures DataPages(pages) == DataPages(old(pages))[id := page] && id !in DataPages(old(pages))
    {
      hide RoomOk, DataPages;
      id := AllocatePage();
      RoomNew(old(pages), current, free.freeOf, id, page);
      NotData(old(pages), id);
      PutTwice(old(pages), id, Foreign, Data(page));
      DataPut(old(pages), id, page);
      pages := pages[id := Data(page)];
    }

    method LeaveCurrent(replaced: PageId)
      requires Holds(replaced, None, None) && replaced != current && (replaced != 0 ==> replaced in pages && pages[replaced].Data?)
      modifies this`pages, this`freeList, this`owner, free
      ensures Valid() && V() == Left(old(V()), replaced)
    {
      hide Partition, DataOk, RecordsOk, ChainsOk, RoomOk, SlottedPage.IsEmpty, Noted;
      if replaced != 0 {
        var page := pages[replaced].page;
        if page.IsEmpty() {
          free.Remove(replaced);
          EmptyPageFreed(W(), replaced, None);
          RoomFreed(pages, current, old(free.freeOf), replaced);
          DataPut(pages, replaced, page);
          FreePage(replaced);
          owner := owner[replaced := OnFreeList];
        } else {
          NotSpare(W(), replaced);
          NotedOk(pages, current, free.freeOf, replaced, page);
          NoteRoom(replaced, page);
          assert pages[replaced := Data(page)] == pages;
        }
      }
    }

    // ------------------------------------------------------------ the operations

    /** `insert_record`: the document is at its new location, the others are where
        they were. Refused only if longer than a document can be. */
    method Insert(id: DocId, bytes: seq<byte>) returns (r: Option<Loc>)
      requires Valid()
      modifies this, free
      ensures Valid() && (r.None? <==> |bytes| > MAX_LEN)
      ensures r.None? ==> records == old(records)
      ensures r.Some? ==> r.value !in old(records) && records == old(records)[r.value := Record(id, bytes)]
      ensures r.Some? ==> exists cell: Cell :: cell.Length() == CellLength(bytes) && PlacesAt(old(V()), V(), cell, r.value.page)
    {
      hide Holds, CellFor, Fits, PlacesAt, DataPages;
      var cell, pending := WriteCell(id, bytes, None);
      if cell.None? {
        return None;
      }
      var loc := PlaceCell(cell.value, Record(id, bytes), pending);
      r := Some(loc);
    }

    /** The record at a location as it is stored, put together from its chain; or
        nothing if no live cell is there. */
    method Get(loc: Loc) returns (r: Option<Record>)
      requires Valid()
      ensures r == if loc in records then Some(records[loc]) else None
    {
      hide Partition, DataOk, HoldsBody, RoomOk;
      var cell := CellOf(pages, loc);
      if cell.None? {
        return None;
      }
      assert Matches(cell.value, loc, records[loc], chains);
      if cell.value.Inline? {
        return Some(Record(cell.value.id, cell.value.encoded));
      }
      ghost var chain := chains[cell.value.first];
      ChainIsWhole(W(), cell.value.first);
      var found := WalkChain(pages, cell.value.first, cell.value.len);
      assert IsChain(pages, cell.value.first, cell.value.len, chain.pages, chain.body);
      ChainIsUnique(pages, found.value.chain, found.value.body, chain.pages, chain.body);
      r := Some(Record(cell.value.id, found.value.body));
    }

    /** The chain of the cell at `loc` freed, if it has one. */
    method FreeChainOf(loc: Loc) returns (ghost hole: Option<Loc>)
      requires Valid() && loc in records
      modifies this`pages, this`freeList, this`owner, this`chains
      ensures DataStays(old(pages), pages) && Holds(0, None, hole) && NoChainAt(W(), loc, hole)
      ensures hole == ChainHole(old(pages), loc)
    {
      hide Partition, DataOk, HoldsBody, RoomOk;
      var cell := CellOf(pages, loc).value;
      assert Matches(cell, loc, records[loc], chains);
      if cell.Overflow? {
        hide RecordsOk, ChainsOk;
        FreeChain(cell.first, cell.len, loc);
        hole := Some(loc);
      } else {
        hole := None;
      }
    }

    /** `update_record`: the document replaced, at its location or moved to another.
        A document too long is refused after its old chain is freed: everything
        else is as it was, and the batch it is in is given up (`Batch`). */
    method Update(loc: Loc, id: DocId, bytes: seq<byte>) returns (r: Outcome)
      requires Valid()
      modifies this, free
      ensures r == NoRecord <==> loc !in old(records)
      ensures r == TooLong <==> loc in old(records) && |bytes| > MAX_LEN
      ensures r == NoRecord ==> Valid() && records == old(records)
      ensures r == TooLong ==>
                && Holds(0, None, ChainHole(old(pages), loc)) && records == old(records)
                && V() == old(V())
      ensures r.Done? ==>
                && Valid() && (r.loc == loc || r.loc !in old(records))
                && records == (old(records) - {loc})[r.loc := Record(id, bytes)]
    {
      hide Partition, DataOk, ChainsOk, RoomOk, Matches;
      if CellOf(pages, loc).None? {
        return NoRecord;
      }
      var page := pages[loc.page].page;
      PagesAreOk(W(), None, None, loc);
      ghost var hole := FreeChainOf(loc);
      DataStaysAt(old(pages), pages);
      var cell, pending := WriteCell(id, bytes, hole);
      if cell.None? {
        return TooLong;
      }
      DataStaysAt(old(pages), pages);
      var to := ReplaceAt(loc, page, cell.value, Record(id, bytes), pending, hole);
      r := Done(to);
    }

    method ReplaceAt(
      loc: Loc, page: SlottedPage, cell: Cell, ghost record: Record, ghost pending: Option<PageId>,
      ghost hole: Option<Loc>)
      returns (to: Loc)
      requires Holds(0, pending, hole) && NoChainAt(W(), loc, hole) && loc in records
      requires loc.page in pages && pages[loc.page] == Data(page) && page.Ok() && page.CellAt(loc.slot).Some?
      requires CellFor(cell, record, chains, pending) && Fits(cell)
      modifies this, free
      ensures Valid() && (to == loc || to !in old(records)) && records == (old(records) - {loc})[to := record]
    {
      hide Partition, DataOk, RecordsOk, ChainsOk, RoomOk, Updated, Deleted;
      var updated := Updated(page, loc.slot, cell);
      if updated.Some? {
        CellPut(W(), loc, updated.value, cell, record, 0, pending, hole);
        ghost var w' := PutIn(W(), loc, updated.value, record, pending);
        NotedOk(pages, current, free.freeOf, loc.page, updated.value);
        NoteRoom(loc.page, updated.value);
        pages := pages[loc.page := Data(updated.value)];
        records, chains := w'.records, w'.chains;
        assert records == (old(records) - {loc})[loc := record];
        return loc;
      }
      WriteOrFree(loc, Deleted(page, loc.slot), pending, hole);
      to := PlaceCell(cell, record, pending);
    }

    /** `write_or_free`: a page without the cell at `loc` written back; or freed,
        if that was its last and it is not the current one. */
    method WriteOrFree(loc: Loc, page: SlottedPage, ghost pending: Option<PageId>, ghost hole: Option<Loc>)
      requires Holds(0, pending, hole) && SameButAt(pages, loc, page, None) && NoChainAt(W(), loc, hole)
      modifies this`pages, this`freeList, this`owner, this`records, free
      ensures Holds(0, pending, None) && records == old(records) - {loc}
    {
      hide Partition, DataOk, RecordsOk, ChainsOk, RoomOk, SlottedPage.IsEmpty, SameButAt, NoChainAt;
      if page.IsEmpty() && loc.page != current {
        FreeWithout(loc, page, pending, hole);
      } else {
        KeepWithout(loc, page, pending, hole);
      }
    }

    method FreeWithout(loc: Loc, ghost page: SlottedPage, ghost pending: Option<PageId>, ghost hole: Option<Loc>)
      requires Holds(0, pending, hole) && SameButAt(pages, loc, page, None) && NoChainAt(W(), loc, hole)
      requires page.IsEmpty() && loc.page != current
      modifies this`pages, this`freeList, this`owner, this`records, free
      ensures Holds(0, pending, None) && records == old(records) - {loc}
    {
      hide Partition, DataOk, RecordsOk, ChainsOk, RoomOk, SlottedPage.IsEmpty;
      ghost var w' := TakenOut(W(), loc, page);
      CellDropped(W(), loc, page, pending, hole);
      NotThePageZero(w', loc.page, pending);
      EmptyPageFreed(w', loc.page, pending);
      RoomFreed(pages, current, free.freeOf, loc.page);
      free.Remove(loc.page);
      FreePage(loc.page);
      records, owner := records - {loc}, owner[loc.page := OnFreeList];
      assert pages == PageFreed(w', loc.page).pages;
    }

    method KeepWithout(loc: Loc, page: SlottedPage, ghost pending: Option<PageId>, ghost hole: Option<Loc>)
      requires Holds(0, pending, hole) && SameButAt(pages, loc, page, None) && NoChainAt(W(), loc, hole)
      requires !page.IsEmpty() || loc.page == current
      modifies this`pages, this`records, free
      ensures Holds(0, pending, None) && records == old(records) - {loc}
    {
      hide Partition, DataOk, RecordsOk, ChainsOk, RoomOk, SlottedPage.IsEmpty;
      CellDropped(W(), loc, page, pending, hole);
      NotSpare(TakenOut(W(), loc, page), loc.page);
      NotedOk(pages, current, free.freeOf, loc.page, page);
      NoteRoom(loc.page, page);
      pages := pages[loc.page := Data(page)];
      records := records - {loc};
    }

    /** `delete_record`: the document gone, and with the last on a page the page,
        unless it is the current one. */
    method Delete(loc: Loc) returns (deleted: bool)
      requires Valid()
      modifies this, free
      ensures Valid() && deleted == (loc in old(records)) && records == old(records) - {loc}
    {
      hide Partition, DataOk, ChainsOk, RoomOk, Matches;
      if CellOf(pages, loc).None? {
        assert old(records) - {loc} == records;
        return false;
      }
      var page := pages[loc.page].page;
      PagesAreOk(W(), None, None, loc);
      ghost var hole := FreeChainOf(loc);
      LastCell(page, loc.slot);
      DataStaysAt(old(pages), pages);
      hide DataStays, RecordsOk, NoChainAt, CellOf;
      if LiveCells(page.slots) == 1 && loc.page != current {
        FreeWithout(loc, Deleted(page, loc.slot), None, hole);
      } else {
        KeepWithout(loc, Deleted(page, loc.slot), None, hole);
      }
      deleted := true;
    }
  }

  /** The location whose chain is gone, if it had one. */
  function ChainHole(pages: Pages, loc: Loc): (hole: Option<Loc>) {
    if CellOf(pages, loc).Some? && CellOf(pages, loc).value.Overflow? then Some(loc) else None
  }

  lemma ChainIsWhole(w: World, f: PageId)
    requires ChainsOk(w, None, None) && f in w.chains
    ensures IsChain(w.pages, f, |w.chains[f].body|, w.chains[f].pages, w.chains[f].body)
  {
    OwnedOne(w.owner, w.chains, f);
    OwnersApart(w.owner, f, w.chains[f].pages);
    assert ChainOk(w, f, None, None);
    hide HoldsBody;
  }

  lemma TookBound(w: World, chain: seq<PageId>, freeList: seq<PageId>, count: nat)
    requires Partition(w) && Took(w, chain, freeList, count)
    ensures (forall p <- w.pages :: p < count) && (freeList != [] ==> freeList[0] < count)
  {
    hide Distinct;
    if freeList != [] { assert freeList[0] in w.freeList; }
  }

  /** Where there is no cell there is no record, nor chain. */
  lemma NotARecord(w: World, loc: Loc)
    requires RecordsOk(w, None) && CellOf(w.pages, loc).None?
    ensures loc !in w.records && NoChainAt(w, loc, None)
  {
    hide Matches;
  }

  ghost function Placed(w: World, record: Record, pending: Option<PageId>, page: SlottedPage, slot: nat): (w': World)
    requires pending.Some? ==> pending.value in w.chains
    ensures var id := NextPage(w.freeList, w.count);
            && w'.pages == w.pages[id := Data(page)] && w'.records == w.records[Loc(id, slot) := record]
            && w'.freeList == (if w.freeList != [] then w.freeList[1..] else [])
            && w'.count == (if w.freeList != [] then w.count else w.count + 1)
            && w'.current == id && w'.others == w.others
  {
    PutIn(WithNewPage(w), Loc(NextPage(w.freeList, w.count), slot), page, record, pending)
  }

  lemma NewPlaced(w: World, cell: Cell, record: Record, pending: Option<PageId>, page: SlottedPage, slot: nat)
    requires Core(w, 0, pending, None) && CellFor(cell, record, w.chains, pending)
    requires page.Ok() && page.CellAt(slot) == Some(cell) && forall s: nat :: s != slot ==> page.CellAt(s).None?
    requires pending.Some? ==> pending.value in w.chains
    ensures Core(Placed(w, record, pending, page, slot), w.current, None, None)
    ensures Loc(NextPage(w.freeList, w.count), slot) !in w.records
  {
    hide Partition, DataOk, RecordsOk, ChainsOk, CellOf;
    PageAdded(w, pending);
    var loc := Loc(NextPage(w.freeList, w.count), slot);
    OnEmptyPage(WithNewPage(w).pages, loc, page, cell);
    hide SameButAt, CellFor;
    NotARecord(WithNewPage(w), loc);
    CellPut(WithNewPage(w), loc, page, cell, record, w.current, pending, None);
  }

  lemma NotData(pages: Pages, id: PageId)
    requires id in pages ==> !pages[id].Data?
    ensures id !in DataPages(pages)
  {
  }

  lemma PutTwice(pages: Pages, id: PageId, a: Content, b: Content)
    ensures pages[id := a][id := b] == pages[id := b]
  {
  }

  /** The page allocated is no data page, so not the current one. */
  lemma NewIsNotCurrent(w: World, pending: Option<PageId>)
    requires Core(w, 0, pending, None)
    ensures var id := NextPage(w.freeList, w.count);
            && (id in w.pages ==> !w.pages[id].Data?) && id != 0
            && id != w.current && (w.current != 0 ==> w.current in w.pages && w.pages[w.current].Data?)
  {
    PageAdded(w, pending);
    hide Partition, RecordsOk, ChainsOk;
  }

  lemma OnEmptyPage(pages: Pages, loc: Loc, page: SlottedPage, cell: Cell)
    requires loc.page in pages && pages[loc.page] == Data(EmptyPage) && page.Ok()
    requires page.CellAt(loc.slot) == Some(cell) && forall s: nat :: s != loc.slot ==> page.CellAt(s).None?
    ensures SameButAt(pages, loc, page, Some(cell)) && CellOf(pages, loc).None?
  {
  }

  lemma RoomFits(pages: Pages, current: PageId, freeOf: map<PageId, nat>, p: PageId, len: nat)
    requires RoomOk(pages, current, freeOf) && IsTightest(freeOf, SpaceNeeded(len), p)
    ensures p in pages && pages[p].Data? && pages[p].page.FitsReusingSlot(len)
  {
  }

  lemma RoomNew(pages: Pages, current: PageId, freeOf: map<PageId, nat>, id: PageId, page: SlottedPage)
    requires RoomOk(pages, current, freeOf) && (id in pages ==> !pages[id].Data?)
    ensures RoomOk(pages[id := Data(page)], id, freeOf)
  {
  }

  lemma RoomFreed(pages: Pages, current: PageId, freeOf: map<PageId, nat>, p: PageId)
    requires RoomOk(pages, current, freeOf)
    ensures RoomOk(pages[p := Freed], current, freeOf - {p})
  {
  }

  lemma NotSpare(w: World, spare: PageId)
    requires DataOk(w, spare) && spare in w.pages && w.pages[spare].Data?
    requires spare == w.current || !w.pages[spare].page.IsEmpty()
    ensures DataOk(w, 0)
  {
  }

  lemma NotThePageZero(w: World, p: PageId, pending: Option<PageId>)
    requires Core(w, p, pending, None) && p in w.pages && w.pages[p].Data?
    ensures p != 0
  {
    hide DataOk, RecordsOk, ChainsOk;
  }

  lemma PagesAreOk(w: World, pending: Option<PageId>, hole: Option<Loc>, loc: Loc)
    requires Core(w, 0, pending, hole) && CellOf(w.pages, loc).Some?
    ensures w.pages[loc.page].page.Ok() && loc in w.records
  {
    hide Partition, ChainsOk, Matches;
  }

  lemma CurrentIsOut(pages: Pages, current: PageId, freeOf: map<PageId, nat>, page: SlottedPage)
    requires RoomOk(pages, current, freeOf)
    ensures RoomOk(pages[current := Data(page)], current, freeOf)
  {
  }

  /** How long the cell of a document is: its own bytes, or its chain's address. */
  function CellLength(bytes: seq<byte>): (n: nat)
    ensures SpaceNeeded(n) <= EMPTY_ROOM
  {
    if EMPTY_ROOM >= SpaceNeeded(17 + |bytes|) then 17 + |bytes| else 29
  }

  /** A cell fits on an empty page. */
  predicate Fits(cell: Cell) {
    SpaceNeeded(cell.Length()) <= EMPTY_ROOM
  }

  lemma GivenDataStays(w: World, pages: Pages, chain: seq<PageId>, freeList: seq<PageId>)
    requires Gave(w, chain, pages, freeList) && forall p <- chain :: p in w.pages ==> !w.pages[p].Data?
    ensures DataStays(w.pages, pages)
  {
    hide Distinct;
  }

  ghost method Chained(
    w: World, pages: Pages, chain: seq<PageId>, body: seq<byte>, freeList: seq<PageId>, count: nat, hole: Option<Loc>)
    returns (w': World)
    requires Core(w, 0, None, hole) && Took(w, chain, freeList, count) && chain != []
    requires SameOff(w.pages, pages, chain) && HoldsBody(pages, chain, body)
    requires forall p: PageId :: p in pages <==> p < count
    ensures Core(w', 0, Some(chain[0]), hole) && DataStays(w.pages, pages)
    ensures w' == World(pages, count, freeList, w.current, w'.owner, w'.chains, w.records, w.others)
    ensures chain[0] in w'.chains && w'.chains[chain[0]] == ChainInfo(chain, body, None)
  {
    hide HoldsBody;
    TookPages(w, chain, freeList, count);
    ChainInPages(pages, chain, body);
    ChainDataStays(w, pages, chain);
    hide Partition, DataOk, RecordsOk, ChainsOk;
    ChainAdded(w, pages, chain, body, freeList, count, hole);
    w' := WithChain(w, pages, chain, body, freeList, count);
  }

  lemma ChainDataStays(w: World, pages: Pages, chain: seq<PageId>)
    requires Partition(w) && SameOff(w.pages, pages, chain)
    requires forall p <- chain :: p in w.owner ==> w.owner[p].OnFreeList?
    requires forall p <- pages :: p in w.pages || p in chain
    requires forall p <- chain :: p in pages ==> !pages[p].Data?
    ensures DataStays(w.pages, pages)
  {
  }

  // ------------------------------------------------------------------- every run

  /** A document put under a key, new or in place of the one there, or dropped. */
  datatype Op = Put(key: nat, record: Record) | Drop(key: nat)

  function Applied(documents: map<nat, Record>, op: Op): (after: map<nat, Record>) {
    match op
    case Put(key, record) => documents[key := record]
    case Drop(key) => documents - {key}
  }

  /** `at` has each key's location, its own, with the key's document there; and
      nothing is anywhere else. */
  ghost predicate Located(at: map<nat, Loc>, documents: map<nat, Record>, records: map<Loc, Record>) {
    && at.Keys == documents.Keys
    && (forall k <- at :: at[k] in records && records[at[k]] == documents[k])
    && (forall j <- at, k <- at :: j != k ==> at[j] != at[k])
    && (forall loc <- records :: loc in at.Values)
  }

  lemma LocatedPut(
    at: map<nat, Loc>, documents: map<nat, Record>, records: map<Loc, Record>, key: nat, loc: Loc, record: Record)
    requires Located(at, documents, records)
    requires loc !in records || (key in at && at[key] == loc)
    ensures var kept := if key in at then records - {at[key]} else records;
            Located(at[key := loc], documents[key := record], kept[loc := record])
  {
    var after := at[key := loc];
    var kept := if key in at then records - {at[key]} else records;
    forall l | l in kept[loc := record] ensures l in after.Values {
      if l != loc {
        var k :| k in at && at[k] == l;
        assert k != key && after[k] == l;
      } else {
        assert after[key] == loc;
      }
    }
  }

  lemma LocatedDrop(at: map<nat, Loc>, documents: map<nat, Record>, records: map<Loc, Record>, key: nat)
    requires Located(at, documents, records) && key in at
    ensures Located(at - {key}, documents - {key}, records - {at[key]})
  {
    forall l | l in records - {at[key]} ensures l in (at - {key}).Values {
      var k :| k in at && at[k] == l;
      assert (at - {key})[k] == l;
    }
  }

  // A batch is taken whole, or given up where a document in it is too long.

  predicate Takes(ops: seq<Op>) {
    forall op <- ops :: op.Put? ==> |op.record.bytes| <= MAX_LEN
  }

  function Onto(documents: map<nat, Record>, ops: seq<Op>): (after: map<nat, Record>) {
    if ops == [] then documents else Applied(Onto(documents, ops[..|ops| - 1]), ops[|ops| - 1])
  }

  function AppliedAll(batches: seq<seq<Op>>): (documents: map<nat, Record>) {
    if batches == [] then map[]
    else
      var (before, last) := (AppliedAll(batches[..|batches| - 1]), batches[|batches| - 1]);
      if Takes(last) then Onto(before, last) else before
  }

  /** Documents the operations do not name stay where they are. */
  ghost predicate StayPut(at: map<nat, Loc>, after: map<nat, Loc>, ops: seq<Op>) {
    forall k <- at :: (forall op <- ops :: op.key != k) ==> k in after && after[k] == at[k]
  }

  /** What a batch does to the locations and the pages. */
  ghost predicate Stepped(at: map<nat, Loc>, w: World, next: map<nat, Loc>, after: World, ops: seq<Op>) {
    && after.others == w.others
    && if Takes(ops) then StayPut(at, next, ops) else next == at && after == w
  }

  /** One pass over the batches so far: the locations and pages after each. */
  ghost predicate Went(batches: seq<seq<Op>>, at: seq<map<nat, Loc>>, worlds: seq<World>) {
    && |at| == |worlds| == |batches| + 1
    && (forall i :: 0 <= i <= |batches| ==>
          Core(worlds[i], 0, None, None) && Located(at[i], AppliedAll(batches[..i]), worlds[i].records))
    && (forall i :: 0 <= i < |batches| ==> Stepped(at[i], worlds[i], at[i + 1], worlds[i + 1], batches[i]))
  }

  lemma WentOneMore(
    batches: seq<seq<Op>>, at: seq<map<nat, Loc>>, worlds: seq<World>, ops: seq<Op>, next: map<nat, Loc>, after: World)
    requires Went(batches, at, worlds) && Stepped(at[|batches|], worlds[|batches|], next, after, ops)
    requires Core(after, 0, None, None) && Located(next, AppliedAll(batches + [ops]), after.records)
    ensures Went(batches + [ops], at + [next], worlds + [after])
  {
    hide Core, Located, Stepped, AppliedAll;
    var more := batches + [ops];
    forall i | 0 <= i <= |more|
      ensures Core((worlds + [after])[i], 0, None, None)
      ensures Located((at + [next])[i], AppliedAll(more[..i]), (worlds + [after])[i].records)
    {
      if i <= |batches| {
        assert more[..i] == batches[..i];
      } else {
        assert more[..i] == more;
      }
    }
  }

  lemma NothingWent(w: World)
    requires Core(w, 0, None, None) && w.records == map[]
    ensures Went([], [map[]], [w])
  {
    hide Core;
  }

  /** Every run of batches of inserts, updates and deletes: after each, every
      document last written is read at its location, nothing is anywhere else,
      and every page has one use; a document no batch names is not moved. What
      is read back at the end is what was last written. */
  method Run(c: Collection, batches: seq<seq<Op>>)
    returns (read: map<nat, Record>, at: seq<map<nat, Loc>>, ghost worlds: seq<World>)
    requires c.Valid() && c.records == map[]
    modifies c, c.free
    ensures c.Valid() && read == AppliedAll(batches)
    ensures Went(batches, at, worlds) && worlds[0] == old(c.W()) && worlds[|batches|] == c.W()
  {
    hide Collection.Valid, Went, Stepped, Located, AppliedAll;
    at, worlds := [map[]], [c.W()];
    IsCore(c);
    NothingWent(c.W());
    assert batches[..0] == [];
    for i := 0 to |batches|
      invariant c.Valid() && |at| == |worlds| == i + 1 && worlds[0] == old(c.W()) && worlds[i] == c.W()
      invariant Went(batches[..i], at, worlds)
    {
      assert batches[..i + 1] == batches[..i] + [batches[i]];
      assert Located(at[i], AppliedAll(batches[..i]), c.records) by { LastWent(batches[..i], at, worlds); }
      var next := TakeBatch(c, batches[..i], batches[i], at[i]);
      WentOneMore(batches[..i], at, worlds, batches[i], next, c.W());
      at, worlds := at + [next], worlds + [c.W()];
    }
    assert batches[..|batches|] == batches;
    LastWent(batches, at, worlds);
    read := ReadAll(c, at[|batches|], AppliedAll(batches));
  }

  lemma LastWent(batches: seq<seq<Op>>, at: seq<map<nat, Loc>>, worlds: seq<World>)
    requires Went(batches, at, worlds)
    ensures |at| == |worlds| == |batches| + 1
    ensures Located(at[|batches|], AppliedAll(batches), worlds[|batches|].records)
  {
    hide Located, Core, AppliedAll, Stepped;
    assert batches[..|batches|] == batches;
  }

  method TakeBatch(c: Collection, ghost batches: seq<seq<Op>>, ops: seq<Op>, at: map<nat, Loc>)
    returns (next: map<nat, Loc>)
    requires c.Valid() && Located(at, AppliedAll(batches), c.records)
    modifies c, c.free
    ensures c.Valid() && Core(c.W(), 0, None, None)
    ensures Located(next, AppliedAll(batches + [ops]), c.records)
    ensures Stepped(at, old(c.W()), next, c.W(), ops)
  {
    hide Collection.Valid, Located, StayPut, Takes, Onto, Collection.V;
    assert (batches + [ops])[..|batches|] == batches;
    var ok;
    ok, next := Batch(c, ops, at, AppliedAll(batches));
    IsCore(c);
  }

  lemma IsCore(c: Collection)
    requires c.Valid()
    ensures Core(c.W(), 0, None, None)
  {
    hide Core;
  }

  /** A batch: all its operations, or none of them if a document is too long. The
      pages it staged are dropped then, and the catalog's copies of `current` and
      the free-space map with them. */
  method Batch(c: Collection, ops: seq<Op>, at: map<nat, Loc>, ghost documents: map<nat, Record>)
    returns (ok: bool, after: map<nat, Loc>)
    requires c.Valid() && Located(at, documents, c.records)
    modifies c, c.free
    ensures c.Valid() && ok == Takes(ops)
    ensures ok ==> Located(after, Onto(documents, ops), c.records) && StayPut(at, after, ops)
    ensures !ok ==> after == at && c.W() == old(c.W()) && c.V() == old(c.V())
  {
    hide Collection.Valid, Located, Onto, StayPut, Takes, DataPages;
    IsCore(c);
    IsRoom(c);
    var pages, count, freeList, current := c.pages, c.count, c.freeList, c.current;
    var byFree, freeOf := c.free.byFree, c.free.freeOf;
    ghost var owner, chains, records := c.owner, c.chains, c.records;
    hide Core, RoomOk, EntriesOf;
    ok, after := DoAll(c, ops, at, documents);
    if !ok {
      c.pages, c.count, c.freeList, c.current := pages, count, freeList, current;
      c.free.byFree, c.free.freeOf := byFree, freeOf;
      c.owner, c.chains, c.records := owner, chains, records;
      Restored(c);
      after := at;
    }
  }

  lemma IsRoom(c: Collection)
    requires c.Valid()
    ensures RoomOk(c.pages, c.current, c.free.freeOf) && c.free.byFree == EntriesOf(c.free.freeOf)
  {
    hide Core, RoomOk, EntriesOf;
  }

  lemma Restored(c: Collection)
    requires Core(c.W(), 0, None, None) && RoomOk(c.pages, c.current, c.free.freeOf)
    requires c.free.byFree == EntriesOf(c.free.freeOf)
    ensures c.Valid()
  {
    hide Core, RoomOk, EntriesOf;
  }

  /** Operations in turn, up to the first refused. */
  method DoAll(c: Collection, ops: seq<Op>, at: map<nat, Loc>, ghost documents: map<nat, Record>)
    returns (ok: bool, after: map<nat, Loc>)
    requires c.Valid() && Located(at, documents, c.records)
    modifies c, c.free
    ensures ok == Takes(ops)
    ensures ok ==> c.Valid() && Located(after, Onto(documents, ops), c.records) && StayPut(at, after, ops)
  {
    hide Collection.Valid, Located, Onto, StayPut, Takes;
    ok, after := true, at;
    NoOps(at, documents);
    assert ops[..0] == [];
    for i := 0 to |ops|
      invariant c.Valid() && Located(after, Onto(documents, ops[..i]), c.records)
      invariant ok && StayPut(at, after, ops[..i]) && Takes(ops[..i])
    {
      ghost var was := after;
      ok, after := DoOp(c, ops[i], after, Onto(documents, ops[..i]));
      OneMoreOp(documents, ops, i);
      if !ok {
        return;
      }
      StayPutOneMore(at, was, after, ops[..i], ops[i]);
      assert ops[..i] + [ops[i]] == ops[..i + 1];
    }
    assert ops[..|ops|] == ops;
  }

  lemma NoOps(at: map<nat, Loc>, documents: map<nat, Record>)
    ensures Onto(documents, []) == documents && StayPut(at, at, []) && Takes([])
  {
  }

  lemma OneMoreOp(documents: map<nat, Record>, ops: seq<Op>, i: nat)
    requires i < |ops|
    ensures Onto(documents, ops[..i + 1]) == Applied(Onto(documents, ops[..i]), ops[i])
    ensures Takes(ops[..i + 1]) <==> Takes(ops[..i]) && Takes([ops[i]])
    ensures Takes(ops) ==> Takes([ops[i]])
  {
    assert ops[..i + 1] == ops[..i] + [ops[i]] && ops[..i + 1][..i] == ops[..i];
    assert ops[i] in ops;
  }

  lemma StayPutOneMore(at: map<nat, Loc>, was: map<nat, Loc>, after: map<nat, Loc>, ops: seq<Op>, op: Op)
    requires StayPut(at, was, ops) && StayPut(was, after, [op])
    ensures StayPut(at, after, ops + [op])
  {
    forall k | k in at && forall o <- ops + [op] :: o.key != k
      ensures k in after && after[k] == at[k]
    {
      assert forall o <- ops :: o in ops + [op];
      assert op in ops + [op];
    }
  }

  /** Only the document named moves. */
  lemma OnlyOne(at: map<nat, Loc>, op: Op, loc: Loc)
    ensures StayPut(at, at[op.key := loc], [op]) && StayPut(at, at - {op.key}, [op]) && StayPut(at, at, [op])
    ensures Takes([op]) <==> (op.Put? ==> |op.record.bytes| <= MAX_LEN)
  {
    assert op in [op];
  }

  method DoOp(c: Collection, op: Op, at: map<nat, Loc>, ghost documents: map<nat, Record>)
    returns (ok: bool, after: map<nat, Loc>)
    requires c.Valid() && Located(at, documents, c.records)
    modifies c, c.free
    ensures ok == Takes([op])
    ensures ok ==> c.Valid() && Located(after, Applied(documents, op), c.records) && StayPut(at, after, [op])
  {
    hide Collection.Valid, PlacesAt, Collection.V, Collection.Holds, StayPut, Takes, ChainHole;
    if op.Put? {
      ok, after := DoPut(c, op, at, documents);
      return;
    }
    OnlyOne(at, op, Loc(0, 0));
    if op.key in at {
      LocatedDrop(at, documents, c.records, op.key);
      var _ := c.Delete(at[op.key]);
      return true, at - {op.key};
    }
    assert documents - {op.key} == documents;
    return true, at;
  }

  method DoPut(c: Collection, op: Op, at: map<nat, Loc>, ghost documents: map<nat, Record>)
    returns (ok: bool, after: map<nat, Loc>)
    requires c.Valid() && Located(at, documents, c.records) && op.Put?
    modifies c, c.free
    ensures ok == Takes([op])
    ensures ok ==> c.Valid() && Located(after, Applied(documents, op), c.records) && StayPut(at, after, [op])
  {
    hide Collection.Valid, PlacesAt, Collection.V, Collection.Holds, StayPut, Takes, ChainHole;
    var loc: Option<Loc>;
    if op.key !in at {
      loc := c.Insert(op.record.id, op.record.bytes);
    } else {
      var r := c.Update(at[op.key], op.record.id, op.record.bytes);
      loc := if r.Done? then Some(r.loc) else None;
    }
    OnlyOne(at, op, if loc.Some? then loc.value else Loc(0, 0));
    if loc.None? {
      return false, at;
    }
    LocatedPut(at, documents, old(c.records), op.key, loc.value, op.record);
    return true, at[op.key := loc.value];
  }

  method ReadAll(c: Collection, at: map<nat, Loc>, ghost documents: map<nat, Record>) returns (read: map<nat, Record>)
    requires c.Valid() && Located(at, documents, c.records)
    ensures read == documents
  {
    hide Collection.Valid;
    read := map[];
    var todo := at.Keys;
    while todo != {}
      invariant todo <= at.Keys && read.Keys == at.Keys - todo
      invariant forall k <- read :: read[k] == documents[k]
      decreases todo
    {
      var k :| k in todo;
      var r := c.Get(at[k]);
      read := read[k := r.value];
      todo := todo - {k};
    }
  }
}
