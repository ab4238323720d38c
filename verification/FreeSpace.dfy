/** Data pages with room left, by their exact free bytes (`src/free_space.rs`). */
module FreeSpaces {
  import opened Values
  import opened Slotted

  /** The order of the entries: by free bytes, then page. */
  predicate AtMost(a: (nat, PageId), b: (nat, PageId)) {
    a.0 < b.0 || (a.0 == b.0 && a.1 <= b.1)
  }

  lemma {:induction false} LeastExists(s: set<(nat, PageId)>) returns (least: (nat, PageId))
    requires s != {}
    ensures least in s && forall e <- s :: AtMost(least, e)
    decreases s
  {
    var any :| any in s;
    var rest := s - {any};
    assert forall e <- s :: e == any || e in rest;
    least := any;
    if rest != {} {
      var other := LeastExists(rest);
      least := if AtMost(any, other) then any else other;
    }
  }

  function EntriesOf(freeOf: map<PageId, nat>): (entries: set<(nat, PageId)>)
    ensures forall e: (nat, PageId) :: e in entries <==> e.1 in freeOf && freeOf[e.1] == e.0
  {
    set p <- freeOf :: (freeOf[p], p)
  }

  /** The fullest page with at least `needed` bytes free: the tightest fit, the
      lowest of several. */
  ghost predicate IsTightest(freeOf: map<PageId, nat>, needed: nat, page: PageId) {
    && page in freeOf && freeOf[page] >= needed
    && forall p <- freeOf :: freeOf[p] >= needed ==> AtMost((freeOf[page], page), (freeOf[p], p))
  }

  /** Nothing that has the room has less, and none with as little a lower number. */
  lemma TightestIs(freeOf: map<PageId, nat>, needed: nat, page: PageId)
    ensures IsTightest(freeOf, needed, page) <==>
              && page in freeOf && freeOf[page] >= needed
              && forall p <- freeOf :: freeOf[p] >= needed ==>
                   freeOf[page] < freeOf[p] || (freeOf[page] == freeOf[p] && page <= p)
  {
  }

  class FreeSpace {
    var byFree: set<(nat, PageId)>
    var freeOf: map<PageId, nat>

    /** The two halves agree. */
    ghost predicate Valid()
      reads this
    {
      byFree == EntriesOf(freeOf)
    }

    constructor ()
      ensures Valid() && freeOf == map[]
    {
      byFree, freeOf := {}, map[];
    }

    method Set(page: PageId, free: nat)
      requires Valid()
      modifies this
      ensures Valid() && freeOf == old(freeOf)[page := free]
    {
      if page in freeOf {
        byFree := byFree - {(freeOf[page], page)};
      }
      freeOf := freeOf[page := free];
      byFree := byFree + {(free, page)};
    }

    method Remove(page: PageId)
      requires Valid()
      modifies this
      ensures Valid() && freeOf == old(freeOf) - {page}
    {
      if page in freeOf {
        byFree := byFree - {(freeOf[page], page)};
      }
      freeOf := freeOf - {page};
    }

    method Find(needed: nat) returns (page: Option<PageId>)
      requires Valid()
      ensures page.Some? ==> IsTightest(freeOf, needed, page.value)
      ensures page.None? ==> forall p <- freeOf :: freeOf[p] < needed
    {
      var range := set e <- byFree | AtMost((needed, 0), e);
      if range == {} {
        page := None;
        forall p | p in freeOf ensures freeOf[p] < needed {
          assert (freeOf[p], p) in byFree;
          assert (freeOf[p], p) !in range;
        }
      } else {
        ghost var smallest := LeastExists(range);
        var least :| least in range && forall e <- range :: AtMost(least, e);
        page := Some(least.1);
        forall p | p in freeOf && freeOf[p] >= needed ensures AtMost(least, (freeOf[p], p)) {
          assert (freeOf[p], p) in byFree;
          assert (freeOf[p], p) in range;
        }
      }
    }
  }
}
