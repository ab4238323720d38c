/** Pages counted instead of written (`src/data.rs`): `PackedBuild` decides as
    `place_cell` does, from rooms alone. */
module Packing {
  import opened Values
  import opened Slotted
  import opened Chains
  import opened FreeSpaces
  import opened PageOwners
  import opened Records

  /** How a new collection fills: its data pages, the current one's room, and the
      rooms of those in the free-space map, whichever pages they are. */
  datatype Fill = Fill(pages: nat, current: Option<int>, rooms: multiset<nat>)

  ghost predicate IsLeast(rooms: multiset<nat>, needed: nat, r: nat) {
    r in rooms && r >= needed && forall s <- rooms :: s >= needed ==> r <= s
  }

  function Stays(room: int, enough: int): (rooms: multiset<nat>) {
    if room >= enough && room >= 0 then multiset{room} else multiset{}
  }

  /** The next cell: into the current page, else the tightest fit, else a new
      page. */
  ghost function Pushed(f: Fill, needed: nat): (after: Fill) {
    if f.current.Some? && f.current.value >= needed then
      f.(current := Some(f.current.value - needed))
    else if exists r: nat :: IsLeast(f.rooms, needed, r) then
      var r: nat :| IsLeast(f.rooms, needed, r);
      f.(rooms := f.rooms - multiset{r} + Stays(r - needed, MIN_ROOM_TO_STAY))
    else
      Fill(f.pages + 1, Some(EMPTY_ROOM - needed),
           f.rooms + if f.current.Some? then Stays(f.current.value, MIN_ROOM) else multiset{})
  }

  // ------------------------------------------------------------- rooms of a map

  ghost function Rooms(freeOf: map<PageId, nat>): (rooms: multiset<nat>) {
    if freeOf == map[] then multiset{}
    else
      var p :| p in freeOf;
      Rooms(freeOf - {p}) + multiset{freeOf[p]}
  }

  lemma RoomsFirst(freeOf: map<PageId, nat>) returns (p: PageId)
    requires freeOf != map[]
    ensures p in freeOf && Rooms(freeOf) == Rooms(freeOf - {p}) + multiset{freeOf[p]}
  {
    p :| p in freeOf && Rooms(freeOf) == Rooms(freeOf - {p}) + multiset{freeOf[p]};
  }

  lemma {:induction false} RoomsWithout(freeOf: map<PageId, nat>, p: PageId)
    requires p in freeOf
    ensures Rooms(freeOf) == Rooms(freeOf - {p}) + multiset{freeOf[p]}
    decreases freeOf
  {
    hide Rooms;
    var first := RoomsFirst(freeOf);
    if first != p {
      RoomsWithout(freeOf - {first}, p);
      RoomsWithout(freeOf - {p}, first);
      assert freeOf - {first} - {p} == freeOf - {p} - {first};
    }
  }

  lemma {:induction false} RoomsHas(freeOf: map<PageId, nat>, r: nat)
    ensures r in Rooms(freeOf) <==> exists p <- freeOf :: freeOf[p] == r
    decreases freeOf
  {
    hide Rooms;
    if freeOf == map[] {
      NoRooms();
    } else {
      var p :| p in freeOf;
      RoomsWithout(freeOf, p);
      var rest := freeOf - {p};
      RoomsHas(rest, r);
      assert r in Rooms(freeOf) <==> r in Rooms(rest) || r == freeOf[p];
      if q :| q in freeOf && freeOf[q] == r {
        assert q == p || (q in rest && rest[q] == r);
      }
    }
  }

  lemma NoRooms()
    ensures Rooms(map[]) == multiset{}
  {
  }

  lemma RoomsNoted(freeOf: map<PageId, nat>, current: PageId, p: PageId, room: int)
    requires p != current && room >= 0
    ensures Rooms(Noted(freeOf, current, p, room))
         == if p in freeOf then Rooms(freeOf) - multiset{freeOf[p]} + Stays(room, MIN_ROOM_TO_STAY)
            else Rooms(freeOf) + Stays(room, MIN_ROOM)
  {
    hide Rooms;
    var after: map<PageId, nat> := Noted(freeOf, current, p, room);
    assert after - {p} == freeOf - {p} && (p in after ==> after[p] == room);
    RoomsApart(freeOf, p);
    RoomsApart(after, p);
    var rest := Rooms(freeOf - {p});
    if p in freeOf {
      AddedAndTaken(rest, freeOf[p]);
      assert Rooms(after) == rest + Stays(room, MIN_ROOM_TO_STAY);
    } else {
      assert Rooms(freeOf) == rest;
      assert Rooms(after) == rest + Stays(room, MIN_ROOM);
    }
  }

  lemma AddedAndTaken(rooms: multiset<nat>, r: nat)
    ensures rooms + multiset{r} - multiset{r} == rooms
  {
  }

  lemma RoomsApart(freeOf: map<PageId, nat>, p: PageId)
    ensures Rooms(freeOf) == Rooms(freeOf - {p}) + (if p in freeOf then multiset{freeOf[p]} else multiset{})
  {
    hide Rooms;
    if p in freeOf { RoomsWithout(freeOf, p); } else { assert freeOf - {p} == freeOf; }
  }

  lemma TightestIsLeast(freeOf: map<PageId, nat>, needed: nat, p: PageId)
    requires IsTightest(freeOf, needed, p)
    ensures IsLeast(Rooms(freeOf), needed, freeOf[p])
  {
    hide Rooms;
    RoomsHas(freeOf, freeOf[p]);
    forall s | s in Rooms(freeOf) && s >= needed ensures freeOf[p] <= s {
      RoomsHas(freeOf, s);
    }
  }

  lemma NoneIsLeast(freeOf: map<PageId, nat>, needed: nat)
    requires forall p <- freeOf :: freeOf[p] < needed
    ensures forall r: nat :: !IsLeast(Rooms(freeOf), needed, r)
  {
    hide Rooms;
    forall r: nat ensures !IsLeast(Rooms(freeOf), needed, r) {
      RoomsHas(freeOf, r);
    }
  }

  // ----------------------------------------------------------- the real inserts

  /** A collection only ever filled: no slot of its pages is a tombstone. */
  ghost predicate Filled(v: View) {
    forall p <- v.data :: v.data[p].Ok() && v.data[p].slots != [] && FirstTombstone(v.data[p].slots).None?
  }

  ghost predicate Exact(v: View) {
    && (v.current != 0 ==> v.current in v.data)
    && forall p <- v.freeOf :: p in v.data && p != v.current && v.freeOf[p] == v.data[p].Reclaimable()
  }

  ghost function FillOf(v: View): (f: Fill)
    requires Exact(v)
  {
    Fill(|v.data|, if v.current == 0 then None else Some(v.data[v.current].Reclaimable()), Rooms(v.freeOf))
  }

  /** Without tombstones an insert takes exactly a slot and the cell. */
  lemma InsertFills(page: SlottedPage, cell: Cell)
    requires page.Ok() && FirstTombstone(page.slots).None? && page.FitsReusingSlot(cell.Length())
    ensures var after := InsertReusing(page, cell).0;
            && after.Ok() && after.slots != [] && FirstTombstone(after.slots).None?
            && after.Reclaimable() == page.Reclaimable() - SpaceNeeded(cell.Length())
  {
    LiveAppended(page.slots, Some(cell));
    assert Trimmed(page.slots, 0) == page.slots;
    assert InsertReusing(page, cell).0.slots == page.slots + [Some(cell)];
  }

  /** `place_cell` on a collection only filled is one push. */
  lemma PlacingPushes(v: View, after: View, cell: Cell, p: PageId)
    requires Exact(v) && Exact(after) && Filled(v) && PlacesAt(v, after, cell, p)
    ensures Filled(after) && FillOf(after) == Pushed(FillOf(v), SpaceNeeded(cell.Length()))
  {
    hide *;
    if v.current != 0 && FitsIn(v, v.current, cell) {
      CurrentPushes(v, after, cell, p);
    } else if p in v.data {
      TightestPushes(v, after, cell, p);
    } else {
      NewPagePushes(v, after, cell, p);
    }
  }

  lemma CurrentPushes(v: View, after: View, cell: Cell, p: PageId)
    requires Exact(v) && Exact(after) && Filled(v) && PlacesAt(v, after, cell, p)
    requires v.current != 0 && FitsIn(v, v.current, cell)
    ensures Filled(after) && FillOf(after) == Pushed(FillOf(v), SpaceNeeded(cell.Length()))
  {
    hide Rooms, InsertReusing, Noted, Live, Pushed;
    InsertFills(v.data[p], cell);
    PushCurrent(FillOf(v), SpaceNeeded(cell.Length()));
    assert |after.data| == |v.data| by { assert after.data.Keys == v.data.Keys; }
  }

  lemma TightestPushes(v: View, after: View, cell: Cell, p: PageId)
    requires Exact(v) && Exact(after) && Filled(v) && PlacesAt(v, after, cell, p)
    requires !(v.current != 0 && FitsIn(v, v.current, cell)) && p in v.data
    ensures Filled(after) && FillOf(after) == Pushed(FillOf(v), SpaceNeeded(cell.Length()))
  {
    hide Rooms, InsertReusing, Noted, Live, Pushed;
    var needed := SpaceNeeded(cell.Length());
    InsertFills(v.data[p], cell);
    TightestIsLeast(v.freeOf, needed, p);
    RoomsNoted(v.freeOf, v.current, p, v.freeOf[p] - needed);
    PushTightest(FillOf(v), needed, v.freeOf[p]);
    assert |after.data| == |v.data| by { assert after.data.Keys == v.data.Keys; }
  }

  lemma PushCurrent(f: Fill, needed: nat)
    requires f.current.Some? && f.current.value >= needed
    ensures Pushed(f, needed) == f.(current := Some(f.current.value - needed))
  {
  }

  lemma PushTightest(f: Fill, needed: nat, r: nat)
    requires !(f.current.Some? && f.current.value >= needed) && IsLeast(f.rooms, needed, r)
    ensures Pushed(f, needed) == f.(rooms := f.rooms - multiset{r} + Stays(r - needed, MIN_ROOM_TO_STAY))
  {
    hide Stays;
  }

  lemma PushNew(f: Fill, needed: nat)
    requires !(f.current.Some? && f.current.value >= needed) && forall r: nat :: !IsLeast(f.rooms, needed, r)
    ensures Pushed(f, needed)
         == Fill(f.pages + 1, Some(EMPTY_ROOM - needed),
                 f.rooms + if f.current.Some? then Stays(f.current.value, MIN_ROOM) else multiset{})
  {
    hide Stays, IsLeast;
  }

  lemma OneMorePage(data: map<PageId, SlottedPage>, p: PageId, page: SlottedPage)
    requires p !in data
    ensures |data[p := page]| == |data| + 1
  {
    assert data[p := page].Keys == data.Keys + {p};
  }

  /** Neither the current page nor one in the map has room: what a new page
      leaves. */
  lemma NewPageIs(v: View, after: View, cell: Cell, p: PageId)
    requires Exact(v) && Filled(v) && PlacesAt(v, after, cell, p) && p !in v.data
    ensures EmptyPage.Ok() && EmptyPage.FitsReusingSlot(cell.Length()) && p != v.current && p != 0
    ensures after == View(v.data[p := InsertReusing(EmptyPage, cell).0], p,
                          if v.current == 0 then v.freeOf
                          else Noted(v.freeOf, p, v.current, v.data[v.current].Reclaimable()))
    ensures v.current != 0 ==> 0 <= v.data[v.current].Reclaimable() < SpaceNeeded(cell.Length())
    ensures forall q <- v.freeOf :: v.freeOf[q] < SpaceNeeded(cell.Length())
  {
    hide InsertReusing, Noted, Live;
    if v.current != 0 {
      assert v.data[v.current].slots[0].Some?;
    }
  }

  lemma NewPageFilled(v: View, after: View, cell: Cell, p: PageId)
    requires Exact(v) && Filled(v) && PlacesAt(v, after, cell, p) && p !in v.data
    ensures Filled(after)
  {
    hide InsertReusing, Noted, PlacesAt, Live;
    NewPageIs(v, after, cell, p);
    InsertFills(EmptyPage, cell);
    hide SlottedPage.Ok, FirstTombstone;
  }

  lemma NewPagePushes(v: View, after: View, cell: Cell, p: PageId)
    requires Exact(v) && Exact(after) && Filled(v) && PlacesAt(v, after, cell, p) && p !in v.data
    ensures Filled(after) && FillOf(after) == Pushed(FillOf(v), SpaceNeeded(cell.Length()))
  {
    hide Rooms, InsertReusing, Noted, Pushed, PlacesAt, SlottedPage.FitsReusingSlot, FirstTombstone;
    assert EmptyPage.Reclaimable() == EMPTY_ROOM && FirstTombstone(EmptyPage.slots).None? by { NoTombstone(); }
    hide Live;
    var needed := SpaceNeeded(cell.Length());
    NewPageIs(v, after, cell, p);
    NewPageFilled(v, after, cell, p);
    InsertFills(EmptyPage, cell);
    hide Filled, SlottedPage.Ok, SlottedPage.Reclaimable;
    NoneIsLeast(v.freeOf, needed);
    OneMorePage(v.data, p, InsertReusing(EmptyPage, cell).0);
    RoomsLeft(v, p);
    hide Stays;
    PushNew(FillOf(v), needed);
  }

  lemma RoomsLeft(v: View, p: PageId)
    requires Exact(v) && p != v.current && (v.current != 0 ==> v.data[v.current].Reclaimable() >= 0)
    ensures v.current == 0 ==> Rooms(v.freeOf) == Rooms(v.freeOf) + multiset{}
    ensures v.current != 0 ==>
              var room := v.data[v.current].Reclaimable();
              Rooms(Noted(v.freeOf, p, v.current, room)) == Rooms(v.freeOf) + Stays(room, MIN_ROOM)
  {
    hide Rooms, Noted, Stays;
    if v.current != 0 {
      RoomsNoted(v.freeOf, p, v.current, v.data[v.current].Reclaimable());
    }
  }

  lemma NoTombstone()
    ensures EmptyPage.Reclaimable() == EMPTY_ROOM && FirstTombstone(EmptyPage.slots).None?
  {
  }

  // --------------------------------------------------------------- the prediction

  class PackedBuild {
    var pages: nat
    var current: PageId
    /** Room left, for `current` and the pages in `free`. */
    var room: map<PageId, int>
    const free: FreeSpace

    ghost predicate Valid()
      reads this, free
    {
      && free.Valid() && current <= pages && (current != 0 <==> pages != 0)
      && (current != 0 ==> current in room && room[current] >= 0)
      && (forall p <- free.freeOf :: 0 < p <= pages && p != current && p in room && room[p] == free.freeOf[p])
    }

    ghost function F(): (f: Fill)
      requires Valid()
      reads this, free
    {
      Fill(pages, if current == 0 then None else Some(room[current]), Rooms(free.freeOf))
    }

    constructor ()
      ensures Valid() && fresh(free) && F() == Fill(0, None, multiset{})
    {
      pages, current, room := 0, 0, map[];
      free := new FreeSpace();
    }

    /** `push`: the next cell, by its length. */
    method Push(len: nat)
      requires Valid() && SpaceNeeded(len) <= EMPTY_ROOM
      modifies this, free
      ensures Valid() && F() == Pushed(old(F()), SpaceNeeded(len))
    {
      hide Rooms, Pushed;
      var needed := SpaceNeeded(len);
      if current != 0 && room[current] >= needed {
        PushCurrent(F(), needed);
        room := room[current := room[current] - needed];
        return;
      }
      var page := free.Find(needed);
      if page.Some? {
        PushInto(page.value, needed);
      } else {
        PushNewPage(needed);
      }
    }

    method PushInto(page: PageId, needed: nat)
      requires Valid() && !(current != 0 && room[current] >= needed) && IsTightest(free.freeOf, needed, page)
      modifies this, free
      ensures Valid() && F() == Pushed(old(F()), needed)
    {
      hide Rooms, Pushed, Stays;
      TightestIsLeast(free.freeOf, needed, page);
      PushTightest(F(), needed, free.freeOf[page]);
      room := room[page := room[page] - needed];
      NoteRoom(page);
    }

    method PushNewPage(needed: nat)
      requires Valid() && !(current != 0 && room[current] >= needed) && needed <= EMPTY_ROOM
      requires forall p <- free.freeOf :: free.freeOf[p] < needed
      modifies this, free
      ensures Valid() && F() == Pushed(old(F()), needed)
    {
      hide Rooms, Pushed, Stays;
      NoneIsLeast(free.freeOf, needed);
      PushNew(F(), needed);
      pages := pages + 1;
      room := room[pages := EMPTY_ROOM - needed];
      var replaced := current;
      current := pages;
      if replaced != 0 {
        NoteRoom(replaced);
      }
    }

    /** `note_room`, on what this keeps of a page. */
    method NoteRoom(page: PageId)
      requires free.Valid() && page in room && room[page] >= 0 && page != current
      requires current in room
      modifies this`room, free
      ensures free.Valid() && free.freeOf == Noted(old(free.freeOf), current, page, old(room)[page])
      ensures Rooms(free.freeOf)
           == if page in old(free.freeOf) then
                Rooms(old(free.freeOf)) - multiset{old(free.freeOf)[page]} + Stays(old(room)[page], MIN_ROOM_TO_STAY)
              else Rooms(old(free.freeOf)) + Stays(old(room)[page], MIN_ROOM)
      ensures room == if page in free.freeOf then old(room) else old(room) - {page}
    {
      hide Rooms;
      RoomsNoted(free.freeOf, current, page, room[page]);
      var enough := if page in free.freeOf then MIN_ROOM_TO_STAY else MIN_ROOM;
      if page != current && room[page] >= enough {
        free.Set(page, room[page]);
      } else {
        free.Remove(page);
        if page != current {
          room := room - {page};
        }
      }
    }
  }

  lemma ValidIsExact(c: Collection)
    requires c.Valid()
    ensures Exact(c.V())
  {
    assert RoomOk(c.pages, c.current, c.free.freeOf);
    hide Partition, RecordsOk, ChainsOk, SlottedPage.Ok, SlottedPage.IsEmpty, SlottedPage.Reclaimable;
  }

  /** A new collection's prediction, after cells of these lengths. */
  ghost function PushedAll(lengths: seq<nat>): (f: Fill) {
    if lengths == [] then Fill(0, None, multiset{})
    else Pushed(PushedAll(lengths[..|lengths| - 1]), SpaceNeeded(lengths[|lengths| - 1]))
  }

  ghost function Lengths(documents: seq<Record>): (lengths: seq<nat>) {
    seq(|documents|, i requires 0 <= i < |documents| => CellLength(documents[i].bytes))
  }

  lemma OneMoreLength(documents: seq<Record>, i: nat)
    requires i < |documents|
    ensures PushedAll(Lengths(documents[..i + 1]))
         == Pushed(PushedAll(Lengths(documents[..i])), SpaceNeeded(CellLength(documents[i].bytes)))
  {
    var more := Lengths(documents[..i + 1]);
    assert more[..i] == Lengths(documents[..i]);
  }

  /** Each document is at its own location, and nothing is anywhere else. */
  ghost predicate LiesAt(locs: seq<Loc>, documents: seq<Record>, records: map<Loc, Record>) {
    && |locs| == |documents|
    && (forall i, j :: 0 <= i < j < |locs| ==> locs[i] != locs[j])
    && (forall i :: 0 <= i < |locs| ==> locs[i] in records && records[locs[i]] == documents[i])
    && (forall loc <- records :: loc in locs)
  }

  lemma LiesOneMore(locs: seq<Loc>, documents: seq<Record>, records: map<Loc, Record>, loc: Loc, document: Record)
    requires LiesAt(locs, documents, records) && loc !in records
    ensures LiesAt(locs + [loc], documents + [document], records[loc := document])
  {
  }

  /** The prediction is exact: documents inserted one after another into a new
      collection, in any file, fill as many data pages as `PackedBuild` counts
      from the lengths of their cells. */
  method PredictPages(file: Pages, count: nat, freeList: seq<PageId>, documents: seq<Record>)
    returns (c: Collection, build: PackedBuild, locs: seq<Loc>)
    requires 0 < count && 0 !in freeList && Distinct(freeList) && (forall p: PageId :: p in file <==> p < count)
    requires forall p <- freeList :: p < count
    requires forall p <- file :: file[p] == if p in freeList then Freed else Foreign
    requires forall d <- documents :: |d.bytes| <= MAX_LEN
    ensures fresh(c) && fresh(c.free) && fresh(build) && fresh(build.free)
    ensures c.Valid() && LiesAt(locs, documents, c.records) && c.others == (set p <- file | p !in freeList)
    ensures build.Valid() && build.F() == PushedAll(Lengths(documents))
    ensures build.pages == |DataPages(c.pages)|
  {
    hide *;
    c, build := BothNew(file, count, freeList);
    locs := [];
    NoneLies(c.records, documents);
    for i := 0 to |documents|
      invariant Alike(c, build) && fresh(c) && fresh(c.free) && fresh(build) && fresh(build.free)
      invariant LiesAt(locs, documents[..i], c.records)
      invariant build.Valid() && build.F() == PushedAll(Lengths(documents[..i]))
    {
      assert documents[i] in documents;
      ghost var records := c.records;
      var loc := InsertBoth(c, build, documents[i]);
      LiesOneMore(locs, documents[..i], records, loc, documents[i]);
      OneMoreLength(documents, i);
      assert documents[..i] + [documents[i]] == documents[..i + 1];
      locs := locs + [loc];
    }
    assert documents[..|documents|] == documents;
    CountsAgree(c, build);
  }

  lemma NoneLies(records: map<Loc, Record>, documents: seq<Record>)
    requires records == map[]
    ensures LiesAt([], documents[..0], records) && PushedAll(Lengths(documents[..0])) == Fill(0, None, multiset{})
  {
  }

  method BothNew(file: Pages, count: nat, freeList: seq<PageId>) returns (c: Collection, build: PackedBuild)
    requires 0 < count && 0 !in freeList && Distinct(freeList) && (forall p: PageId :: p in file <==> p < count)
    requires forall p <- freeList :: p < count
    requires forall p <- file :: file[p] == if p in freeList then Freed else Foreign
    ensures Alike(c, build) && fresh(c) && fresh(c.free) && fresh(build) && fresh(build.free)
    ensures c.records == map[] && c.others == set p <- file | p !in freeList
    ensures build.Valid() && build.F() == Fill(0, None, multiset{})
  {
    hide Collection.Valid, PackedBuild.Valid, Filled, Exact, FillOf, PackedBuild.F, Collection.V, Distinct, Collection.W;
    c := new Collection(file, count, freeList);
    build := new PackedBuild();
    NothingFilled(c, file);
  }

  /** The collection and the prediction of it have filled alike. */
  ghost predicate Alike(c: Collection, build: PackedBuild)
    reads c, c.free, build, build.free
  {
    && {c, c.free} !! {build, build.free}
    && c.Valid() && build.Valid() && Filled(c.V()) && Exact(c.V()) && build.F() == FillOf(c.V())
  }

  method InsertBoth(c: Collection, build: PackedBuild, document: Record) returns (loc: Loc)
    requires Alike(c, build) && |document.bytes| <= MAX_LEN
    modifies c, c.free, build, build.free
    ensures Alike(c, build) && build.Valid() && build.F() == Pushed(old(build.F()), SpaceNeeded(CellLength(document.bytes)))
    ensures loc !in old(c.records) && c.records == old(c.records)[loc := document]
  {
    hide Collection.Valid, PackedBuild.Valid, Filled, Exact, FillOf, PackedBuild.F, Pushed, PlacesAt, Collection.V;
    ghost var before := c.V();
    var inserted := c.Insert(document.id, document.bytes);
    loc := inserted.value;
    ghost var cell: Cell :| cell.Length() == CellLength(document.bytes) && PlacesAt(before, c.V(), cell, loc.page);
    ValidIsExact(c);
    PlacingPushes(before, c.V(), cell, loc.page);
    build.Push(CellLength(document.bytes));
  }

  lemma CountsAgree(c: Collection, build: PackedBuild)
    requires Alike(c, build)
    ensures c.Valid() && build.Valid() && build.pages == |DataPages(c.pages)|
  {
    hide Rooms, Collection.Valid;
  }

  lemma NothingFilled(c: Collection, file: Pages)
    requires c.Valid() && c.pages == file && c.current == 0 && forall p <- file :: !file[p].Data?
    ensures Filled(c.V()) && Exact(c.V()) && FillOf(c.V()) == Fill(0, None, multiset{})
  {
    ValidIsExact(c);
    assert RoomOk(c.pages, c.current, c.free.freeOf);
    assert DataPages(c.pages) == map[];
    assert c.free.freeOf == map[];
    NoRooms();
  }
}
