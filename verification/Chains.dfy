/** Overflow chains (`src/data.rs`): a document too large for a page, in pages
    each naming the next. */
module Chains {
  import opened Values
  import opened Slotted

  /** A page beneath the records: a data page, a page of a chain, one on the free
      list, or one of somebody else's. */
  datatype Content =
    | Data(page: SlottedPage)
    | Link(next: PageId, data: seq<byte>)
    | Freed
    | Foreign

  type Pages = map<PageId, Content>

  const CAPACITY: nat := 8179

  function Min(a: nat, b: nat): (m: nat) {
    if a <= b then a else b
  }

  /** `chain` holds `body`: each page its share and its successor's id, the last
      0; the length, not the links, says where it ends. */
  ghost predicate HoldsBody(pages: Pages, chain: seq<PageId>, body: seq<byte>)
    decreases chain
  {
    && chain != []
    && chain[0] in pages && pages[chain[0]].Link?
    && |pages[chain[0]].data| == CAPACITY
    && pages[chain[0]].data[..Min(|body|, CAPACITY)] == body[..Min(|body|, CAPACITY)]
    && if |body| <= CAPACITY then
         |chain| == 1 && pages[chain[0]].next == 0
       else
         && |chain| > 1 && pages[chain[0]].next == chain[1] != 0
         && HoldsBody(pages, chain[1..], body[CAPACITY..])
  }

  predicate Distinct(s: seq<PageId>) {
    forall i, j :: 0 <= i < j < |s| ==> s[i] != s[j]
  }

  /** What makes a chain whole: it begins at `first` and no page comes twice. */
  ghost predicate IsChain(pages: Pages, first: PageId, len: nat, chain: seq<PageId>, body: seq<byte>) {
    chain != [] && chain[0] == first && Distinct(chain) && |body| == len && HoldsBody(pages, chain, body)
  }

  lemma {:induction false} HoldsElsewhere(pages: Pages, after: Pages, chain: seq<PageId>, body: seq<byte>)
    requires HoldsBody(pages, chain, body)
    requires forall p <- chain :: p in after && p in pages && after[p] == pages[p]
    ensures HoldsBody(after, chain, body)
    decreases chain
  {
    if |body| > CAPACITY {
      assert forall p <- chain[1..] :: p in chain;
      HoldsElsewhere(pages, after, chain[1..], body[CAPACITY..]);
    }
  }

  lemma {:induction false} ChainInPages(pages: Pages, chain: seq<PageId>, body: seq<byte>)
    requires HoldsBody(pages, chain, body)
    ensures forall p <- chain :: p in pages && pages[p].Link?
    decreases chain
  {
    if |body| > CAPACITY {
      ChainInPages(pages, chain[1..], body[CAPACITY..]);
      assert chain == [chain[0]] + chain[1..];
    }
  }

  /** A chain is found in one way only. */
  lemma {:induction false} ChainIsUnique(
    pages: Pages, a: seq<PageId>, x: seq<byte>, b: seq<PageId>, y: seq<byte>)
    requires HoldsBody(pages, a, x) && HoldsBody(pages, b, y) && |x| == |y| && a[0] == b[0]
    ensures a == b && x == y
    decreases a
  {
    if |x| > CAPACITY {
      ChainIsUnique(pages, a[1..], x[CAPACITY..], b[1..], y[CAPACITY..]);
      assert a == [a[0]] + a[1..] && b == [b[0]] + b[1..];
      assert x == x[..CAPACITY] + x[CAPACITY..] && y == y[..CAPACITY] + y[CAPACITY..];
    }
  }

  datatype Found = Found(chain: seq<PageId>, body: seq<byte>)

  function Walk(pages: Pages, at: PageId, len: nat, seen: set<PageId>): (found: Option<Found>)
    decreases len
  {
    if at in seen || at !in pages || !pages[at].Link? || |pages[at].data| != CAPACITY then None
    else
      var take := Min(len, CAPACITY);
      if len - take == 0 then
        if pages[at].next == 0 then Some(Found([at], pages[at].data[..take])) else None
      else if pages[at].next == 0 then None
      else Before(at, pages[at].data[..take], Walk(pages, pages[at].next, len - take, seen + {at}))
  }

  function Before(at: PageId, data: seq<byte>, rest: Option<Found>): (found: Option<Found>) {
    if rest.None? then None else Some(Found([at] + rest.value.chain, data + rest.value.body))
  }

  /** Walking finds a whole chain, and any there is. */
  lemma {:induction false} WalkIsChain(pages: Pages, at: PageId, len: nat, seen: set<PageId>)
    ensures var w := Walk(pages, at, len, seen);
            w.Some? ==> IsChain(pages, at, len, w.value.chain, w.value.body) && forall p <- w.value.chain :: p !in seen
    decreases len
  {
    var w := Walk(pages, at, len, seen);
    if w.Some? && len > CAPACITY {
      var rest := Walk(pages, pages[at].next, len - CAPACITY, seen + {at});
      WalkIsChain(pages, pages[at].next, len - CAPACITY, seen + {at});
      assert w.value.chain[1..] == rest.value.chain;
      assert w.value.body[CAPACITY..] == rest.value.body;
    }
  }

  lemma {:induction false} ChainIsWalked(
    pages: Pages, at: PageId, len: nat, seen: set<PageId>, chain: seq<PageId>, body: seq<byte>)
    requires IsChain(pages, at, len, chain, body) && forall p <- chain :: p !in seen
    ensures Walk(pages, at, len, seen) == Some(Found(chain, body))
    decreases len
  {
    assert chain[0] in chain;
    if len > CAPACITY {
      DistinctTail(chain);
      hide Distinct;
      assert forall p <- chain[1..] :: p in chain;
      ChainIsWalked(pages, chain[1], len - CAPACITY, seen + {at}, chain[1..], body[CAPACITY..]);
      assert chain == [at] + chain[1..];
      assert body == body[..CAPACITY] + body[CAPACITY..];
    } else {
      assert chain == [at];
      assert body[..|body|] == body;
    }
  }

  lemma DistinctTail(s: seq<PageId>)
    requires Distinct(s) && s != []
    ensures Distinct(s[1..]) && s[0] !in s[1..]
  {
  }

  function Joined(chain: seq<PageId>, body: seq<byte>, rest: Option<Found>): (found: Option<Found>) {
    if rest.None? then None else Some(Found(chain + rest.value.chain, body + rest.value.body))
  }

  lemma JoinedNone(found: Option<Found>)
    ensures Joined([], [], found) == found
  {
    if found.Some? {
      assert [] + found.value.chain == found.value.chain && [] + found.value.body == found.value.body;
    }
  }

  lemma JoinedStep(chain: seq<PageId>, body: seq<byte>, at: PageId, data: seq<byte>, rest: Option<Found>)
    ensures Joined(chain, body, Before(at, data, rest)) == Joined(chain + [at], body + data, rest)
  {
    if rest.Some? {
      assert chain + ([at] + rest.value.chain) == (chain + [at]) + rest.value.chain;
      assert body + (data + rest.value.body) == (body + data) + rest.value.body;
    }
  }

  /** `walk_chain`: the pages of a chain of `len` bytes and what they hold, or
      nothing if the chain is damaged; on any pages at all. */
  method WalkChain(pages: Pages, first: PageId, len: nat) returns (found: Option<Found>)
    ensures found.Some? ==> IsChain(pages, first, len, found.value.chain, found.value.body)
    ensures (exists chain, body :: IsChain(pages, first, len, chain, body)) ==> found.Some?
  {
    found := WalkLoop(pages, first, len);
    WalkIsChain(pages, first, len, {});
    forall chain, body | IsChain(pages, first, len, chain, body) ensures found.Some? {
      ChainIsWalked(pages, first, len, {}, chain, body);
    }
  }

  method WalkLoop(pages: Pages, first: PageId, len: nat) returns (found: Option<Found>)
    ensures found == Walk(pages, first, len, {})
  {
    var at, remaining, seen := first, len, {};
    var chain: seq<PageId>, body: seq<byte> := [], [];
    JoinedNone(Walk(pages, first, len, {}));
    while true
      invariant Walk(pages, first, len, {}) == Joined(chain, body, Walk(pages, at, remaining, seen))
      decreases remaining
    {
      if at in seen {
        return None;
      }
      seen := seen + {at};
      if at !in pages || !pages[at].Link? || |pages[at].data| != CAPACITY {
        return None;
      }
      var take := Min(remaining, CAPACITY);
      JoinedStep(chain, body, at, pages[at].data[..take],
                 if remaining > take then Walk(pages, pages[at].next, remaining - take, seen) else None);
      chain, body := chain + [at], body + pages[at].data[..take];
      remaining := remaining - take;
      if remaining == 0 || pages[at].next == 0 {
        return if remaining == 0 && pages[at].next == 0 then Some(Found(chain, body)) else None;
      }
      at := pages[at].next;
    }
  }
}
