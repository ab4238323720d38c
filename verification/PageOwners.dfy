/** Whose every page of the file is (`src/data.rs`): each one the current page, a
    data page with a document, a page of one document's chain, on the free list,
    or somebody else's; and what each step of the record code does to that. */
module PageOwners {
  import opened Values
  import opened Slotted
  import opened Chains

  datatype Loc = Loc(page: PageId, slot: nat)

  /** A document as stored: its id and its encoding. */
  datatype Record = Record(id: DocId, bytes: seq<byte>)

  const MIN_ROOM: int := 2047
  const MIN_ROOM_TO_STAY: int := 256
  const MAX_LEN: nat := 0xFFFF_FFFF

  /** Whose a page is: each page of the file has one owner. */
  datatype Owner = OfOthers | OnFreeList | OfData | OfChain(first: PageId, at: nat)

  /** A chain by its first page: its pages, what they hold, and whose it is. */
  datatype ChainInfo = ChainInfo(pages: seq<PageId>, body: seq<byte>, user: Option<Loc>)

  /** Everything but the free-space map. */
  datatype World = World(
    pages: Pages, count: nat, freeList: seq<PageId>, current: PageId,
    owner: map<PageId, Owner>, chains: map<PageId, ChainInfo>, records: map<Loc, Record>, others: set<PageId>)

  /** The live cell at a location. */
  function CellOf(pages: Pages, loc: Loc): (cell: Option<Cell>) {
    if loc.page in pages && pages[loc.page].Data? then pages[loc.page].page.CellAt(loc.slot) else None
  }

  // ------------------------------------------------------------------ invariants

  ghost predicate Partition(w: World) {
    && (forall p: PageId :: p in w.owner <==> p < w.count) && w.pages.Keys == w.owner.Keys
    && 0 in w.owner && w.owner[0].OfOthers?
    && Distinct(w.freeList)
    && (forall p: PageId :: p in w.freeList <==> p in w.owner && w.owner[p].OnFreeList?)
    && (forall p <- w.owner :: w.owner[p].OfData? <==> w.pages[p].Data?)
    && (forall p: PageId :: p in w.others <==> p in w.owner && w.owner[p].OfOthers?)
    && (forall p <- w.others :: p in w.pages && w.pages[p].Foreign?)
  }

  /** Every data page but the current one has a document; `spare` may not yet. */
  ghost predicate DataOk(w: World, spare: PageId) {
    && (w.current != 0 ==> w.current in w.pages && w.pages[w.current].Data?)
    && forall p <- w.pages :: w.pages[p].Data? ==>
         w.pages[p].page.Ok() && (p == w.current || p == spare || !w.pages[p].page.IsEmpty())
  }

  /** What is read at a location is its record. */
  ghost predicate Matches(cell: Cell, loc: Loc, record: Record, chains: map<PageId, ChainInfo>) {
    && cell.id == record.id
    && match cell {
         case Inline(_, encoded) => encoded == record.bytes
         case Overflow(_, len, first) =>
           && first in chains && chains[first].user == Some(loc)
           && chains[first].body == record.bytes && len == |record.bytes|
       }
  }

  /** The live cells are the records; the one at `hole` has lost its chain. */
  ghost predicate RecordsOk(w: World, hole: Option<Loc>) {
    && (forall loc :: loc in w.records <==> CellOf(w.pages, loc).Some?)
    && (forall loc <- w.records :: Some(loc) != hole ==>
          Matches(CellOf(w.pages, loc).value, loc, w.records[loc], w.chains))
  }

  ghost predicate UserOk(w: World, first: PageId, pending: Option<PageId>, hole: Option<Loc>)
    requires first in w.chains
  {
    match w.chains[first].user
    case None => pending == Some(first)
    case Some(loc) =>
      Some(loc) != hole && CellOf(w.pages, loc).Some? && CellOf(w.pages, loc).value.Overflow?
      && CellOf(w.pages, loc).value.first == first
  }

  ghost predicate ChainOk(w: World, f: PageId, pending: Option<PageId>, hole: Option<Loc>)
    requires f in w.chains
  {
    && w.chains[f].pages != [] && w.chains[f].pages[0] == f
    && HoldsBody(w.pages, w.chains[f].pages, w.chains[f].body)
    && UserOk(w, f, pending, hole)
  }

  /** Every chain is held by the pages it owns, and is one document's: or that of
      the cell about to be placed, `pending`. */
  ghost predicate ChainsOk(w: World, pending: Option<PageId>, hole: Option<Loc>) {
    && Ownership(w.owner, w.chains)
    && (forall f <- w.chains :: ChainOk(w, f, pending, hole))
    && (pending.Some? ==> pending.value in w.chains && w.chains[pending.value].user.None?)
  }

  /** The pages owned by a chain are the chain's pages. */
  ghost predicate Ownership(owner: map<PageId, Owner>, chains: map<PageId, ChainInfo>) {
    && (forall f <- chains :: OwnsPages(owner, f, chains[f].pages))
    && (forall p <- owner :: owner[p].OfChain? ==>
          && owner[p].first in chains
          && owner[p].at < |chains[owner[p].first].pages|
          && chains[owner[p].first].pages[owner[p].at] == p)
  }

  ghost predicate OwnsPages(owner: map<PageId, Owner>, first: PageId, pages: seq<PageId>) {
    forall i :: 0 <= i < |pages| ==> pages[i] in owner && owner[pages[i]] == OfChain(first, i)
  }

  ghost predicate Core(w: World, spare: PageId, pending: Option<PageId>, hole: Option<Loc>) {
    Partition(w) && DataOk(w, spare) && RecordsOk(w, hole) && ChainsOk(w, pending, hole)
  }

  /** The free-space map never has the current page and is exact. */
  ghost predicate RoomOk(pages: Pages, current: PageId, freeOf: map<PageId, nat>) {
    forall p <- freeOf ::
      && p != current && p in pages && pages[p].Data?
      && freeOf[p] == pages[p].page.Reclaimable() >= MIN_ROOM_TO_STAY
  }

  // ----------------------------------------------------------------- transitions

  lemma OwnersApart(owner: map<PageId, Owner>, first: PageId, pages: seq<PageId>)
    requires OwnsPages(owner, first, pages)
    ensures Distinct(pages)
    ensures forall p <- pages :: p in owner && owner[p].OfChain? && owner[p].first == first
  {
  }

  /** The cell of a data page changed: the chains hold what they held. */
  lemma ChainsUntouched(w: World, p: PageId, page: SlottedPage, f: PageId)
    requires Partition(w) && p in w.pages && w.pages[p].Data? && f in w.chains
    requires OwnsPages(w.owner, f, w.chains[f].pages) && HoldsBody(w.pages, w.chains[f].pages, w.chains[f].body)
    ensures HoldsBody(w.pages[p := Data(page)], w.chains[f].pages, w.chains[f].body)
  {
    OwnersApart(w.owner, f, w.chains[f].pages);
    HoldsElsewhere(w.pages, w.pages[p := Data(page)], w.chains[f].pages, w.chains[f].body);
  }

  function PutIn(w: World, loc: Loc, page: SlottedPage, record: Record, pending: Option<PageId>): (w': World)
    requires pending.Some? ==> pending.value in w.chains
  {
    w.(pages := w.pages[loc.page := Data(page)], records := w.records[loc := record],
       chains := if pending.None? then w.chains
                 else w.chains[pending.value := w.chains[pending.value].(user := Some(loc))])
  }

  function TakenOut(w: World, loc: Loc, page: SlottedPage): (w': World) {
    w.(pages := w.pages[loc.page := Data(page)], records := w.records - {loc})
  }

  /** The cell a record is to have: its own bytes, or its chain's first page. */
  ghost predicate CellFor(cell: Cell, record: Record, chains: map<PageId, ChainInfo>, pending: Option<PageId>) {
    match pending
    case None => cell == Inline(record.id, record.bytes)
    case Some(first) =>
      cell == Overflow(record.id, |record.bytes|, first) && first in chains && chains[first].body == record.bytes
  }

  /** `page` is the page at `loc` but for that slot. */
  ghost predicate SameButAt(pages: Pages, loc: Loc, page: SlottedPage, cell: Option<Cell>) {
    && loc.page in pages && pages[loc.page].Data? && page.Ok()
    && page.CellAt(loc.slot) == cell
    && (forall s: nat :: s != loc.slot ==> page.CellAt(s) == pages[loc.page].page.CellAt(s))
  }

  /** Nothing, or a cell without a chain, is at `loc`. */
  ghost predicate NoChainAt(w: World, loc: Loc, hole: Option<Loc>) {
    && (hole.None? || hole == Some(loc))
    && (hole == Some(loc) || CellOf(w.pages, loc).None? || CellOf(w.pages, loc).value.Inline?)
  }

  /** Of all the cells that at `loc` has changed. */
  ghost predicate OnlyCell(pages: Pages, after: Pages, loc: Loc, cell: Option<Cell>) {
    forall l :: CellOf(after, l) == if l == loc then cell else CellOf(pages, l)
  }

  lemma CellsAfter(pages: Pages, loc: Loc, page: SlottedPage, cell: Option<Cell>)
    requires SameButAt(pages, loc, page, cell)
    ensures OnlyCell(pages, pages[loc.page := Data(page)], loc, cell)
  {
    forall l ensures CellOf(pages[loc.page := Data(page)], l) == if l == loc then cell else CellOf(pages, l) {
      if l.page == loc.page && l.slot == loc.slot { assert l == loc; }
    }
  }

  lemma NotEmptyWith(page: SlottedPage, slot: nat)
    ensures page.CellAt(slot).Some? ==> !page.IsEmpty()
    ensures !page.IsEmpty() ==> exists s: nat :: page.CellAt(s).Some?
  {
    if !page.IsEmpty() {
      var s :| 0 <= s < |page.slots| && page.slots[s].Some?;
      assert page.CellAt(s).Some?;
    }
  }

  lemma CellPut(
    w: World, loc: Loc, page: SlottedPage, cell: Cell, record: Record,
    spare: PageId, pending: Option<PageId>, hole: Option<Loc>)
    requires Core(w, spare, pending, hole) && SameButAt(w.pages, loc, page, Some(cell)) && NoChainAt(w, loc, hole)
    requires CellFor(cell, record, w.chains, pending)
    ensures Core(PutIn(w, loc, page, record, pending), spare, None, None)
  {
    hide Partition, DataOk, RecordsOk, ChainsOk, CellOf, OnlyCell;
    var w' := PutIn(w, loc, page, record, pending);
    assert w'.pages == w.pages[loc.page := Data(page)];
    CellsAfter(w.pages, loc, page, Some(cell));
    NotEmptyWith(page, loc.slot);
    PageSet(w, w', loc.page, page, spare);
    PutRecords(w, w', loc, cell, record, pending, hole);
    PutChains(w, w', loc, page, cell, record, pending, hole);
  }

  lemma PageSet(w: World, w': World, p: PageId, page: SlottedPage, spare: PageId)
    requires Partition(w) && DataOk(w, spare) && p in w.pages && w.pages[p].Data?
    requires page.Ok() && (p == w.current || p == spare || !page.IsEmpty())
    requires w'.pages == w.pages[p := Data(page)] && w'.owner == w.owner && w'.count == w.count
    requires w'.freeList == w.freeList && w'.current == w.current && w'.others == w.others
    ensures Partition(w') && DataOk(w', spare)
  {
  }

  lemma PutChains(
    w: World, w': World, loc: Loc, page: SlottedPage, cell: Cell, record: Record,
    pending: Option<PageId>, hole: Option<Loc>)
    requires Partition(w) && ChainsOk(w, pending, hole) && NoChainAt(w, loc, hole)
    requires loc.page in w.pages && w.pages[loc.page].Data? && CellFor(cell, record, w.chains, pending)
    requires w' == PutIn(w, loc, page, record, pending)
    requires OnlyCell(w.pages, w'.pages, loc, Some(cell))
    ensures ChainsOk(w', None, None)
  {
    hide CellOf;
    hide Partition, HoldsBody, CellFor, NoChainAt;
    OwnershipSame(w.owner, w.chains, w'.chains);
    forall f | f in w'.chains ensures ChainOk(w', f, None, None) {
      assert OwnsPages(w.owner, f, w.chains[f].pages) by { OwnedOne(w.owner, w.chains, f); }
      assert ChainOk(w, f, pending, hole);
      hide Ownership, ChainOk, OwnsPages;
      ChainPut(w, w', loc, page, cell, record, pending, hole, f);
    }
  }

  lemma ChainPut(
    w: World, w': World, loc: Loc, page: SlottedPage, cell: Cell, record: Record,
    pending: Option<PageId>, hole: Option<Loc>, f: PageId)
    requires f in w.chains && f in w'.chains && Partition(w) && ChainOk(w, f, pending, hole)
    requires OwnsPages(w.owner, f, w.chains[f].pages) && NoChainAt(w, loc, hole)
    requires loc.page in w.pages && w.pages[loc.page].Data? && CellFor(cell, record, w.chains, pending)
    requires w'.pages == w.pages[loc.page := Data(page)]
    requires w'.chains[f] == if pending == Some(f) then w.chains[f].(user := Some(loc)) else w.chains[f]
    requires OnlyCell(w.pages, w'.pages, loc, Some(cell))
    ensures ChainOk(w', f, None, None)
  {
    hide CellOf;
    ChainsUntouched(w, loc.page, page, f);
    hide Partition, HoldsBody, OwnsPages;
  }

  lemma OwnershipSame(owner: map<PageId, Owner>, chains: map<PageId, ChainInfo>, after: map<PageId, ChainInfo>)
    requires Ownership(owner, chains) && chains.Keys == after.Keys
    requires forall f <- chains :: chains[f].pages == after[f].pages
    ensures Ownership(owner, after)
  {
  }

  lemma OwnedOne(owner: map<PageId, Owner>, chains: map<PageId, ChainInfo>, f: PageId)
    requires Ownership(owner, chains) && f in chains
    ensures OwnsPages(owner, f, chains[f].pages)
  {
  }

  lemma PutRecords(w: World, w': World, loc: Loc, cell: Cell, record: Record, pending: Option<PageId>, hole: Option<Loc>)
    requires RecordsOk(w, hole) && ChainsOk(w, pending, hole) && NoChainAt(w, loc, hole)
    requires CellFor(cell, record, w.chains, pending)
    requires OnlyCell(w.pages, w'.pages, loc, Some(cell))
    requires w'.records == w.records[loc := record]
    requires w'.chains == if pending.None? then w.chains
                          else w.chains[pending.value := w.chains[pending.value].(user := Some(loc))]
    ensures RecordsOk(w', None)
  {
    hide CellOf, Matches, ChainsOk, CellFor;
    forall l | l in w'.records
      ensures CellOf(w'.pages, l).Some? && Matches(CellOf(w'.pages, l).value, l, w'.records[l], w'.chains)
    {
      if l == loc {
        PutMatches(w, w', loc, cell, record, pending);
      } else {
        KeepsMatching(CellOf(w.pages, l).value, l, w.records[l], w.chains, pending, hole, w);
      }
    }
  }

  lemma PutMatches(w: World, w': World, loc: Loc, cell: Cell, record: Record, pending: Option<PageId>)
    requires CellFor(cell, record, w.chains, pending)
    requires w'.chains == if pending.None? then w.chains
                          else w.chains[pending.value := w.chains[pending.value].(user := Some(loc))]
    ensures Matches(cell, loc, record, w'.chains)
  {
  }

  lemma KeepsMatching(
    cell: Cell, l: Loc, record: Record, chains: map<PageId, ChainInfo>, pending: Option<PageId>, hole: Option<Loc>, w: World)
    requires Matches(cell, l, record, chains) && w.chains == chains && ChainsOk(w, pending, hole)
    ensures forall loc :: pending.Some? ==>
              Matches(cell, l, record, chains[pending.value := chains[pending.value].(user := Some(loc))])
  {
    hide ChainOk, Ownership;
  }

  /** A cell without a chain is deleted; its page may be left empty. */
  lemma CellDropped(w: World, loc: Loc, page: SlottedPage, pending: Option<PageId>, hole: Option<Loc>)
    requires Core(w, 0, pending, hole) && SameButAt(w.pages, loc, page, None) && NoChainAt(w, loc, hole)
    ensures Core(TakenOut(w, loc, page), loc.page, pending, None)
  {
    hide Partition, DataOk, RecordsOk, ChainsOk, CellOf, OnlyCell;
    var w' := TakenOut(w, loc, page);
    assert w'.pages == w.pages[loc.page := Data(page)];
    CellsAfter(w.pages, loc, page, None);
    PageSpared(w, loc.page);
    PageSet(w, w', loc.page, page, loc.page);
    DropRecords(w, w', loc, hole);
    DropChains(w, w', loc, page, pending, hole);
  }

  lemma PageSpared(w: World, p: PageId)
    requires Partition(w) && DataOk(w, 0)
    ensures DataOk(w, p)
  {
  }

  lemma DropRecords(w: World, w': World, loc: Loc, hole: Option<Loc>)
    requires RecordsOk(w, hole) && NoChainAt(w, loc, hole)
    requires OnlyCell(w.pages, w'.pages, loc, None)
    requires w'.records == w.records - {loc} && w'.chains == w.chains
    ensures RecordsOk(w', None)
  {
    hide CellOf, Matches;
  }

  lemma DropChains(w: World, w': World, loc: Loc, page: SlottedPage, pending: Option<PageId>, hole: Option<Loc>)
    requires Partition(w) && ChainsOk(w, pending, hole) && NoChainAt(w, loc, hole)
    requires loc.page in w.pages && w.pages[loc.page].Data?
    requires w' == TakenOut(w, loc, page)
    requires OnlyCell(w.pages, w'.pages, loc, None)
    ensures ChainsOk(w', pending, None)
  {
    hide CellOf, Partition, HoldsBody, NoChainAt;
    forall f | f in w'.chains ensures ChainOk(w', f, pending, None) {
      assert OwnsPages(w.owner, f, w.chains[f].pages) by { OwnedOne(w.owner, w.chains, f); }
      assert ChainOk(w, f, pending, hole);
      hide Ownership, OwnsPages;
      ChainsUntouched(w, loc.page, page, f);
      NotTheUser(w, loc, pending, hole, f);
    }
  }

  lemma NotTheUser(w: World, loc: Loc, pending: Option<PageId>, hole: Option<Loc>, f: PageId)
    requires f in w.chains && ChainOk(w, f, pending, hole) && NoChainAt(w, loc, hole)
    ensures w.chains[f].user != Some(loc)
  {
    hide CellOf, HoldsBody;
  }

  // ------------------------------------------------------------- pages come and go

  function PageFreed(w: World, p: PageId): (w': World) {
    w.(pages := w.pages[p := Freed], freeList := [p] + w.freeList, owner := w.owner[p := OnFreeList])
  }

  /** A data page without documents, not the current one, goes back to the free
      list. */
  lemma EmptyPageFreed(w: World, p: PageId, pending: Option<PageId>)
    requires Core(w, p, pending, None) && p in w.pages && w.pages[p].Data? && w.pages[p].page.IsEmpty()
    requires p != w.current && p != 0
    ensures Core(PageFreed(w, p), 0, pending, None)
  {
    hide CellOf;
    var w' := PageFreed(w, p);
    NotEmptyNowhere(w, p);
    FreedPages(w, w', p);
    SameCells(w, w', None);
    FreedChains(w, w', p, pending);
  }

  lemma FreedPages(w: World, w': World, p: PageId)
    requires Partition(w) && DataOk(w, p) && p in w.pages && w.pages[p].Data? && p != w.current
    requires w' == PageFreed(w, p)
    ensures Partition(w') && DataOk(w', 0)
  {
    assert w.owner[p].OfData?;
    assert p !in w.freeList;
  }

  lemma SameCells(w: World, w': World, hole: Option<Loc>)
    requires RecordsOk(w, hole) && w'.records == w.records && w'.chains == w.chains
    requires forall l :: CellOf(w'.pages, l) == CellOf(w.pages, l)
    ensures RecordsOk(w', hole)
  {
    hide CellOf, Matches;
  }

  lemma NotEmptyNowhere(w: World, p: PageId)
    requires p in w.pages && w.pages[p].Data? && w.pages[p].page.IsEmpty()
    ensures forall l :: CellOf(w.pages[p := Freed], l) == CellOf(w.pages, l)
  {
  }

  lemma FreedChains(w: World, w': World, p: PageId, pending: Option<PageId>)
    requires Partition(w) && ChainsOk(w, pending, None) && p in w.pages && w.pages[p].Data?
    requires w' == PageFreed(w, p)
    requires forall l :: CellOf(w'.pages, l) == CellOf(w.pages, l)
    ensures ChainsOk(w', pending, None)
  {
    hide CellOf, HoldsBody;
    assert w.owner[p].OfData?;
    hide Partition;
    OwnershipElsewhere(w.owner, w'.owner, w.chains);
    forall f | f in w'.chains ensures ChainOk(w', f, pending, None) {
      OwnedOne(w.owner, w.chains, f);
      assert ChainOk(w, f, pending, None);
      OwnersApart(w.owner, f, w.chains[f].pages);
      HoldsElsewhere(w.pages, w'.pages, w.chains[f].pages, w.chains[f].body);
    }
  }

  /** Other pages changing hands leave the chains' pages theirs. */
  lemma OwnershipElsewhere(owner: map<PageId, Owner>, after: map<PageId, Owner>, chains: map<PageId, ChainInfo>)
    requires Ownership(owner, chains)
    requires forall p <- owner :: owner[p].OfChain? ==> p in after && after[p] == owner[p]
    requires forall p <- after :: after[p].OfChain? ==> p in owner && owner[p] == after[p]
    ensures Ownership(after, chains)
  {
    forall f | f in chains ensures OwnsPages(after, f, chains[f].pages) {
      OwnedOne(owner, chains, f);
    }
  }

  /** The page allocated next: the free list's first, or one more. */
  function NextPage(freeList: seq<PageId>, count: nat): (id: PageId) {
    if freeList != [] then freeList[0] else count
  }

  function WithNewPage(w: World): (w': World) {
    var id := NextPage(w.freeList, w.count);
    w.(pages := w.pages[id := Data(EmptyPage)], owner := w.owner[id := OfData], current := id,
       freeList := if w.freeList != [] then w.freeList[1..] else [],
       count := if w.freeList != [] then w.count else w.count + 1)
  }

  /** A new data page becomes the current one. */
  lemma PageAdded(w: World, pending: Option<PageId>)
    requires Core(w, 0, pending, None)
    ensures NextPage(w.freeList, w.count) != 0
    ensures NextPage(w.freeList, w.count) in w.pages ==> !w.pages[NextPage(w.freeList, w.count)].Data?
    ensures Core(WithNewPage(w), w.current, pending, None)
  {
    hide Partition, DataOk, ChainsOk, RecordsOk;
    var w' := WithNewPage(w);
    var id := NextPage(w.freeList, w.count);
    AddedPages(w, w', id);
    assert forall l :: CellOf(w'.pages, l) == CellOf(w.pages, l);
    hide CellOf;
    SameCells(w, w', None);
    NotOfChain(w, w', id, pending);
  }

  lemma AddedPages(w: World, w': World, id: PageId)
    requires Partition(w) && DataOk(w, 0) && w' == WithNewPage(w) && id == NextPage(w.freeList, w.count)
    ensures Partition(w') && DataOk(w', w.current) && id != 0
    ensures id in w.pages ==> !w.pages[id].Data?
    ensures id in w.owner ==> w.owner[id].OnFreeList?
  {
    assert EmptyPage.Ok();
    hide SlottedPage.Ok, SlottedPage.IsEmpty;
    if w.freeList != [] {
      assert id in w.freeList;
      DistinctTail(w.freeList);
      hide Distinct;
      assert w.freeList == [id] + w.freeList[1..];
    } else {
      hide Distinct;
      assert id !in w.owner;
    }
  }

  lemma NotOfChain(w: World, w': World, id: PageId, pending: Option<PageId>)
    requires ChainsOk(w, pending, None) && w'.chains == w.chains
    requires id in w.owner ==> w.owner[id].OnFreeList?
    requires w'.owner == w.owner[id := OfData] && forall p <- w.pages :: p != id ==> p in w'.pages && w'.pages[p] == w.pages[p]
    requires forall l :: CellOf(w'.pages, l) == CellOf(w.pages, l)
    ensures ChainsOk(w', pending, None)
  {
    hide CellOf, HoldsBody;
    OwnershipElsewhere(w.owner, w'.owner, w.chains);
    forall f | f in w'.chains ensures ChainOk(w', f, pending, None) {
      OwnedOne(w.owner, w.chains, f);
      assert ChainOk(w, f, pending, None);
      OwnersApart(w.owner, f, w.chains[f].pages);
      ChainInPages(w.pages, w.chains[f].pages, w.chains[f].body);
      HoldsElsewhere(w.pages, w'.pages, w.chains[f].pages, w.chains[f].body);
    }
  }

  // --------------------------------------------------------------------- chains

  function IndexOf(s: seq<PageId>, p: PageId): (i: nat)
    requires p in s
    ensures i < |s| && s[i] == p
  {
    if s[0] == p then 0 else 1 + IndexOf(s[1..], p)
  }

  /** `chain` was allocated, page by page, since the free list and the page count
      were the world's. */
  ghost predicate Took(w: World, chain: seq<PageId>, freeList: seq<PageId>, count: nat) {
    && Distinct(chain) && Distinct(freeList) && count >= w.count
    && (forall p <- freeList :: p in w.freeList)
    && (freeList != [] ==> count == w.count)
    && (forall p: PageId :: p in chain <==> (p in w.freeList && p !in freeList) || w.count <= p < count)
  }

  lemma TookOne(w: World, chain: seq<PageId>, freeList: seq<PageId>, count: nat)
    requires Partition(w) && Took(w, chain, freeList, count)
    ensures Took(w, chain + [NextPage(freeList, count)], if freeList != [] then freeList[1..] else [],
                 if freeList != [] then count else count + 1)
    ensures NextPage(freeList, count) != 0
  {
    var id := NextPage(freeList, count);
    if freeList != [] {
      DistinctTail(freeList);
      assert freeList == [id] + freeList[1..];
      assert id in freeList;
    }
    assert id !in chain;
    DistinctBack(chain, id);
    hide Distinct;
  }

  lemma DistinctBack(s: seq<PageId>, p: PageId)
    requires Distinct(s) && p !in s
    ensures Distinct(s + [p])
  {
  }

  ghost function WithChain(
    w: World, pages: Pages, chain: seq<PageId>, body: seq<byte>, freeList: seq<PageId>, count: nat): (w': World)
    requires chain != [] && forall p: PageId :: p < count && p !in chain ==> p in w.owner
  {
    w.(pages := pages, freeList := freeList, count := count,
       owner := map p: PageId | 0 <= p < count ::
                  if p in chain then OfChain(chain[0], IndexOf(chain, p)) else w.owner[p],
       chains := w.chains[chain[0] := ChainInfo(chain, body, None)])
  }

  /** Off the pages of `chain` nothing changed. */
  ghost predicate SameOff(pages: Pages, after: Pages, chain: seq<PageId>) {
    forall p <- pages :: p !in chain ==> p in after && after[p] == pages[p]
  }

  lemma TookPages(w: World, chain: seq<PageId>, freeList: seq<PageId>, count: nat)
    requires Partition(w) && Took(w, chain, freeList, count)
    ensures forall p: PageId :: p < count && p !in chain ==> p in w.owner
    ensures forall p <- chain :: p in w.owner ==> w.owner[p].OnFreeList?
    ensures 0 !in chain
  {
    hide Distinct;
  }

  /** A chain written for a cell still to be placed. */
  lemma ChainAdded(
    w: World, pages: Pages, chain: seq<PageId>, body: seq<byte>, freeList: seq<PageId>, count: nat, hole: Option<Loc>)
    requires Core(w, 0, None, hole) && Took(w, chain, freeList, count) && chain != []
    requires SameOff(w.pages, pages, chain) && HoldsBody(pages, chain, body)
    requires forall p: PageId :: p in pages <==> p < count
    requires forall p: PageId :: p < count && p !in chain ==> p in w.owner
    ensures Core(WithChain(w, pages, chain, body, freeList, count), 0, Some(chain[0]), hole)
  {
    hide HoldsBody, RecordsOk, ChainsOk, CellOf, IndexOf;
    var w' := WithChain(w, pages, chain, body, freeList, count);
    TookPages(w, chain, freeList, count);
    ChainInPages(pages, chain, body);
    ChainPages(w, w', chain);
    SameCellsOff(w, pages, chain);
    MoreChains(w, w', chain, body, hole);
  }

  lemma SameCellsOff(w: World, pages: Pages, chain: seq<PageId>)
    requires Partition(w) && SameOff(w.pages, pages, chain)
    requires forall p <- pages :: p in w.pages || p in chain
    requires forall p <- chain :: p in pages && !pages[p].Data? && (p in w.owner ==> w.owner[p].OnFreeList?)
    ensures forall l :: CellOf(pages, l) == CellOf(w.pages, l)
  {
    forall l ensures CellOf(pages, l) == CellOf(w.pages, l) {
      if l.page in chain && l.page in w.pages {
        assert w.owner[l.page].OnFreeList?;
      }
    }
  }

  lemma ChainPages(w: World, w': World, chain: seq<PageId>)
    requires Partition(w) && DataOk(w, 0) && Took(w, chain, w'.freeList, w'.count) && chain != [] && 0 !in chain
    requires SameOff(w.pages, w'.pages, chain) && w'.current == w.current && w'.others == w.others
    requires forall p <- chain :: p in w'.pages && w'.pages[p].Link? && (p in w.owner ==> w.owner[p].OnFreeList?)
    requires forall p: PageId :: p in w'.pages <==> p < w'.count
    requires forall p: PageId :: p < w'.count && p !in chain ==> p in w.owner
    requires w'.owner == map p: PageId | 0 <= p < w'.count ::
                           if p in chain then OfChain(chain[0], IndexOf(chain, p)) else w.owner[p]
    ensures Partition(w') && DataOk(w', 0)
  {
    hide Distinct, IndexOf;
  }

  lemma NewIsNoChain(w: World, chain: seq<PageId>, pending: Option<PageId>, hole: Option<Loc>, f: PageId)
    requires ChainsOk(w, pending, hole) && f in w.chains
    requires forall p <- chain :: p in w.owner ==> w.owner[p].OnFreeList?
    ensures forall p <- w.chains[f].pages :: p !in chain && p in w.owner && w.owner[p].OfChain?
    ensures w.chains[f].pages != [] && w.chains[f].pages[0] == f && f !in chain
  {
    OwnedOne(w.owner, w.chains, f);
    OwnersApart(w.owner, f, w.chains[f].pages);
    assert ChainOk(w, f, pending, hole);
    assert f in w.chains[f].pages;
  }

  lemma MoreChains(w: World, w': World, chain: seq<PageId>, body: seq<byte>, hole: Option<Loc>)
    requires RecordsOk(w, hole) && ChainsOk(w, None, hole) && chain != [] && Distinct(chain)
    requires forall p <- chain :: p in w.owner ==> w.owner[p].OnFreeList?
    requires forall l :: CellOf(w'.pages, l) == CellOf(w.pages, l)
    requires SameOff(w.pages, w'.pages, chain) && HoldsBody(w'.pages, chain, body)
    requires forall p: PageId :: p in w'.owner <==> p < w'.count
    requires forall p: PageId :: p < w'.count && p !in chain ==> p in w.owner
    requires forall p <- w.owner :: p < w'.count
    requires forall p <- chain :: p < w'.count
    requires forall p <- w'.owner :: w'.owner[p] == if p in chain then OfChain(chain[0], IndexOf(chain, p)) else w.owner[p]
    requires w'.chains == w.chains[chain[0] := ChainInfo(chain, body, None)] && w'.records == w.records
    ensures RecordsOk(w', hole) && ChainsOk(w', Some(chain[0]), hole)
  {
    hide CellOf, HoldsBody;
    forall f | f in w.chains
      ensures f !in chain && forall p <- w.chains[f].pages :: p !in chain && p in w.owner && w.owner[p].OfChain?
    {
      NewIsNoChain(w, chain, None, hole, f);
    }
    assert chain[0] in chain && chain[0] !in w.chains;
    hide Ownership, IndexOf, Distinct, ChainOk;
    MoreRecords(w, w', chain, body, hole);
    MoreOwnership(w, w', chain, body);
    hide RecordsOk;
    forall f | f in w'.chains ensures ChainOk(w', f, Some(chain[0]), hole) {
      if f != chain[0] {
        ChainKept(w, w', chain, hole, f);
      } else {
        PendingOk(w', chain, body, hole);
      }
    }
  }

  lemma PendingOk(w: World, chain: seq<PageId>, body: seq<byte>, hole: Option<Loc>)
    requires chain != [] && chain[0] in w.chains && w.chains[chain[0]] == ChainInfo(chain, body, None)
    requires HoldsBody(w.pages, chain, body)
    ensures ChainOk(w, chain[0], Some(chain[0]), hole)
  {
    hide HoldsBody, CellOf;
  }

  lemma ChainKept(w: World, w': World, chain: seq<PageId>, hole: Option<Loc>, f: PageId)
    requires f in w.chains && f in w'.chains && w'.chains[f] == w.chains[f] && ChainOk(w, f, None, hole)
    requires chain != [] && SameOff(w.pages, w'.pages, chain) && forall p <- w.chains[f].pages :: p !in chain
    requires forall l :: CellOf(w'.pages, l) == CellOf(w.pages, l)
    ensures ChainOk(w', f, Some(chain[0]), hole)
  {
    hide CellOf;
    ChainInPages(w.pages, w.chains[f].pages, w.chains[f].body);
    HoldsElsewhere(w.pages, w'.pages, w.chains[f].pages, w.chains[f].body);
    hide HoldsBody;
  }

  lemma MoreRecords(w: World, w': World, chain: seq<PageId>, body: seq<byte>, hole: Option<Loc>)
    requires RecordsOk(w, hole) && chain != [] && chain[0] !in w.chains
    requires forall l :: CellOf(w'.pages, l) == CellOf(w.pages, l)
    requires w'.chains == w.chains[chain[0] := ChainInfo(chain, body, None)] && w'.records == w.records
    ensures RecordsOk(w', hole)
  {
    hide CellOf;
  }

  lemma MoreOwnership(w: World, w': World, chain: seq<PageId>, body: seq<byte>)
    requires Ownership(w.owner, w.chains) && chain != [] && Distinct(chain)
    requires forall f <- w.chains :: f !in chain && forall p <- w.chains[f].pages :: p !in chain && p in w.owner
    requires forall p <- w'.owner :: p in chain || p in w.owner
    requires forall p <- w.owner :: p in w'.owner
    requires forall p <- chain :: p in w'.owner
    requires forall p <- w'.owner :: w'.owner[p] == if p in chain then OfChain(chain[0], IndexOf(chain, p)) else w.owner[p]
    requires w'.chains == w.chains[chain[0] := ChainInfo(chain, body, None)]
    ensures Ownership(w'.owner, w'.chains)
  {
    forall f | f in w'.chains ensures OwnsPages(w'.owner, f, w'.chains[f].pages) {
      if f in w.chains {
        OwnedOne(w.owner, w.chains, f);
        hide Ownership, Distinct, IndexOf;
      } else {
        hide Ownership;
        forall i | 0 <= i < |chain| ensures IndexOf(chain, chain[i]) == i {
        }
      }
    }
  }

  ghost function WithoutChain(w: World, f: PageId, pages: Pages, freeList: seq<PageId>): (w': World)
    requires f in w.chains
  {
    w.(pages := pages, freeList := freeList, chains := w.chains - {f},
       owner := map p <- w.owner :: if p in w.chains[f].pages then OnFreeList else w.owner[p])
  }

  /** The pages of `chain`, or those so far, are back on the free list. */
  ghost predicate Gave(w: World, chain: seq<PageId>, pages: Pages, freeList: seq<PageId>) {
    && Distinct(freeList) && pages.Keys == w.pages.Keys
    && (forall p: PageId :: p in freeList <==> p in w.freeList || p in chain)
    && (forall p <- w.pages :: pages[p] == if p in chain then Freed else w.pages[p])
  }

  lemma GaveOne(w: World, chain: seq<PageId>, p: PageId, pages: Pages, freeList: seq<PageId>)
    requires Gave(w, chain, pages, freeList) && p in w.pages && p !in chain && p !in w.freeList
    ensures Gave(w, chain + [p], pages[p := Freed], [p] + freeList)
  {
    assert p !in freeList;
    DistinctFront(p, freeList);
    hide Distinct;
  }

  lemma DistinctFront(p: PageId, s: seq<PageId>)
    requires Distinct(s) && p !in s
    ensures Distinct([p] + s)
  {
  }

  /** A record's chain freed, before its cell goes. */
  lemma ChainFreed(w: World, f: PageId, loc: Loc, pages: Pages, freeList: seq<PageId>)
    requires Core(w, 0, None, None) && f in w.chains && w.chains[f].user == Some(loc)
    requires Gave(w, w.chains[f].pages, pages, freeList)
    ensures Core(WithoutChain(w, f, pages, freeList), 0, None, Some(loc))
  {
    hide HoldsBody, RecordsOk, ChainsOk, CellOf, DataOk;
    var w' := WithoutChain(w, f, pages, freeList);
    ChainOfOwner(w, f);
    GavePages(w, w', f);
    SameCellsGiven(w, pages, w.chains[f].pages);
    LessRecords(w, w', f, loc);
    LessOwnership(w, w', f);
    LessChains(w, w', f, loc);
  }

  lemma ChainOfOwner(w: World, f: PageId)
    requires Partition(w) && ChainsOk(w, None, None) && f in w.chains
    ensures Ownership(w.owner, w.chains) && ChainOk(w, f, None, None)
    ensures forall p <- w.chains[f].pages :: p in w.owner && w.owner[p].OfChain? && w.owner[p].first == f
    ensures forall p <- w.chains[f].pages :: p in w.pages && !w.pages[p].Data? && p !in w.freeList
  {
    OwnedOne(w.owner, w.chains, f);
    OwnersApart(w.owner, f, w.chains[f].pages);
    hide HoldsBody, CellOf;
  }

  lemma GavePages(w: World, w': World, f: PageId)
    requires Partition(w) && DataOk(w, 0) && f in w.chains && Gave(w, w.chains[f].pages, w'.pages, w'.freeList)
    requires forall p <- w.chains[f].pages :: p in w.owner && w.owner[p].OfChain? && !w.pages[p].Data?
    requires w' == WithoutChain(w, f, w'.pages, w'.freeList)
    ensures Partition(w') && DataOk(w', 0)
  {
    hide Distinct, SlottedPage.Ok, SlottedPage.IsEmpty;
  }

  lemma SameCellsGiven(w: World, pages: Pages, chain: seq<PageId>)
    requires forall p <- w.pages :: p in pages && pages[p] == if p in chain then Freed else w.pages[p]
    requires pages.Keys == w.pages.Keys && forall p <- chain :: p in w.pages ==> !w.pages[p].Data?
    ensures forall l :: CellOf(pages, l) == CellOf(w.pages, l)
  {
  }

  lemma LessRecords(w: World, w': World, f: PageId, loc: Loc)
    requires RecordsOk(w, None) && f in w.chains && w.chains[f].user == Some(loc)
    requires forall l :: CellOf(w'.pages, l) == CellOf(w.pages, l)
    requires w'.chains == w.chains - {f} && w'.records == w.records
    ensures RecordsOk(w', Some(loc))
  {
    hide CellOf;
  }

  lemma LessOwnership(w: World, w': World, f: PageId)
    requires Ownership(w.owner, w.chains) && f in w.chains
    requires w'.owner == map p <- w.owner :: if p in w.chains[f].pages then OnFreeList else w.owner[p]
    requires w'.chains == w.chains - {f}
    ensures Ownership(w'.owner, w'.chains)
  {
    OwnedOne(w.owner, w.chains, f);
    OwnersApart(w.owner, f, w.chains[f].pages);
    forall g | g in w'.chains ensures OwnsPages(w'.owner, g, w'.chains[g].pages) {
      OwnedOne(w.owner, w.chains, g);
      OwnersApart(w.owner, g, w.chains[g].pages);
    }
    assert forall p <- w.owner :: w.owner[p].OfChain? && w.owner[p].first == f ==> p in w.chains[f].pages;
  }

  lemma OtherChain(w: World, w': World, f: PageId, g: PageId, loc: Loc)
    requires f in w.chains && g in w.chains && g in w'.chains && f != g && w'.chains[g] == w.chains[g]
    requires ChainOk(w, f, None, None) && ChainOk(w, g, None, None) && w.chains[f].user == Some(loc)
    requires forall p <- w.chains[g].pages :: p !in w.chains[f].pages
    requires forall p <- w.pages :: p in w'.pages && (p !in w.chains[f].pages ==> w'.pages[p] == w.pages[p])
    requires forall l :: CellOf(w'.pages, l) == CellOf(w.pages, l)
    ensures ChainOk(w', g, None, Some(loc))
  {
    hide CellOf;
    ChainInPages(w.pages, w.chains[g].pages, w.chains[g].body);
    HoldsElsewhere(w.pages, w'.pages, w.chains[g].pages, w.chains[g].body);
    hide HoldsBody;
  }

  lemma LessChains(w: World, w': World, f: PageId, loc: Loc)
    requires ChainsOk(w, None, None) && f in w.chains && w.chains[f].user == Some(loc)
    requires Ownership(w'.owner, w'.chains) && w'.chains == w.chains - {f}
    requires forall p <- w.pages :: p in w'.pages && (p !in w.chains[f].pages ==> w'.pages[p] == w.pages[p])
    requires forall l :: CellOf(w'.pages, l) == CellOf(w.pages, l)
    ensures ChainsOk(w', None, Some(loc))
  {
    hide CellOf, HoldsBody;
    OwnedOne(w.owner, w.chains, f);
    OwnersApart(w.owner, f, w.chains[f].pages);
    assert ChainOk(w, f, None, None);
    forall g | g in w'.chains ensures ChainOk(w', g, None, Some(loc)) {
      OwnedOne(w.owner, w.chains, g);
      OwnersApart(w.owner, g, w.chains[g].pages);
      hide Ownership, OwnsPages;
      assert ChainOk(w, g, None, None);
      forall p | p in w.chains[g].pages ensures p !in w.chains[f].pages {
        assert w.owner[p].first == g;
      }
      OtherChain(w, w', f, g, loc);
    }
  }

  // ------------------------------------------------------- what ownership amounts to

  /** `p` is a page of the chain the document at `loc` is in. */
  ghost predicate InChainOf(w: World, p: PageId, loc: Loc) {
    && loc in w.records && CellOf(w.pages, loc).Some?
    && CellOf(w.pages, loc).value.Overflow?
    && CellOf(w.pages, loc).value.first in w.chains
    && p in w.chains[CellOf(w.pages, loc).value.first].pages
  }

  /** A data page that is the current one or has a document. */
  ghost predicate InUse(w: World, p: PageId) {
    p in w.pages && w.pages[p].Data? && (p == w.current || exists slot: nat :: Loc(p, slot) in w.records)
  }

  /** No page is lost and none is shared: one that is neither free nor somebody
      else's is either a data page in use or in exactly one document's chain. */
  lemma EveryPageHasOneUse(w: World, p: PageId)
    requires Core(w, 0, None, None) && p < w.count && p !in w.freeList && !w.owner[p].OfOthers?
    ensures InUse(w, p) <==> !exists loc :: InChainOf(w, p, loc)
    ensures forall a, b :: InChainOf(w, p, a) && InChainOf(w, p, b) ==> a == b
  {
    hide CellOf, HoldsBody;
    forall loc | InChainOf(w, p, loc) ensures w.owner[p].OfChain? && loc == UserOf(w, p) {
      var f := CellOf(w.pages, loc).value.first;
      assert Matches(CellOf(w.pages, loc).value, loc, w.records[loc], w.chains);
      OwnedOne(w.owner, w.chains, f);
      OwnersApart(w.owner, f, w.chains[f].pages);
    }
    if w.owner[p].OfChain? {
      ChainIsUsed(w, p);
    } else {
      DataIsUsed(w, p);
    }
  }

  ghost function UserOf(w: World, p: PageId): (loc: Loc) {
    if p in w.owner && w.owner[p].OfChain? && w.owner[p].first in w.chains && w.chains[w.owner[p].first].user.Some?
    then w.chains[w.owner[p].first].user.value else Loc(0, 0)
  }

  lemma ChainIsUsed(w: World, p: PageId)
    requires Core(w, 0, None, None) && p in w.owner && w.owner[p].OfChain?
    ensures InChainOf(w, p, UserOf(w, p)) && !InUse(w, p)
  {
    hide CellOf, HoldsBody;
    var f := w.owner[p].first;
    assert ChainOk(w, f, None, None);
    assert w.chains[f].pages[w.owner[p].at] == p;
  }

  lemma DataIsUsed(w: World, p: PageId)
    requires Core(w, 0, None, None) && p in w.owner && w.owner[p].OfData?
    ensures InUse(w, p)
  {
    assert w.pages[p].Data?;
    if p != w.current {
      NotEmptyWith(w.pages[p].page, 0);
      var s: nat :| w.pages[p].page.CellAt(s).Some?;
      assert CellOf(w.pages, Loc(p, s)).Some?;
    }
  }
}
