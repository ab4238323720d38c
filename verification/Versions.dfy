/** The versions of pages kept for open snapshots (`src/storage/pages.rs`): a
    reader names its commit and gets the newest version at or before it. */
module Versions {
  import opened Values

  type PageId = nat
  type Page = seq<byte>
  type Pages = map<PageId, Page>

  /** A committed page, the commit that wrote it, and whether the file holds
      it. Commit 0: as it was before the first that changed it since. */
  datatype Version = Version(commit: nat, page: Page, written: bool)

  type Chain = seq<Version>

  ghost predicate Ascending(chain: Chain) {
    forall i, j :: 0 <= i < j < |chain| ==> chain[i].commit < chain[j].commit
  }

  /** The newest version at or before commit `k`. */
  function Find(chain: Chain, k: nat): (page: Option<Page>) {
    if chain == [] then None
    else
      var newest := chain[|chain| - 1];
      if newest.commit <= k then Some(newest.page) else Find(chain[..|chain| - 1], k)
  }

  lemma {:induction false} FindFront(v: Version, chain: Chain, k: nat)
    ensures Find([v] + chain, k)
         == if Find(chain, k).Some? then Find(chain, k) else if v.commit <= k then Some(v.page) else None
  {
    if chain == [] {
      assert [v] + chain == [v];
    } else {
      var n := |chain| - 1;
      assert ([v] + chain)[..n + 1] == [v] + chain[..n];
      FindFront(v, chain[..n], k);
    }
  }

  lemma {:induction false} FindNone(chain: Chain, k: nat)
    requires forall v <- chain :: k < v.commit
    ensures Find(chain, k).None?
  {
    if chain != [] { FindNone(chain[..|chain| - 1], k); }
  }

  ghost predicate Sorted(live: seq<nat>) {
    forall i, j :: 0 <= i < j < |live| ==> live[i] <= live[j]
  }

  /** `partition_point`: how many of `live` are below `commit`. */
  function Below(live: seq<nat>, commit: nat): (n: nat)
    ensures n <= |live|
    ensures forall i :: 0 <= i < n ==> live[i] < commit
    ensures n < |live| ==> live[n] >= commit
  {
    if live == [] || live[0] >= commit then 0 else 1 + Below(live[1..], commit)
  }

  /** Whether an open snapshot's commit falls on a version: at or after it, and
      before the next. */
  predicate IsRead(live: seq<nat>, commit: nat, next: Option<nat>) {
    var first := Below(live, commit);
    first < |live| && (next.None? || live[first] < next.value)
  }

  lemma IsReadMeans(live: seq<nat>, commit: nat, next: Option<nat>, k: nat)
    requires Sorted(live) && k in live && commit <= k && (next.None? || k < next.value)
    ensures IsRead(live, commit, next)
  {
    var i :| 0 <= i < |live| && live[i] == k;
    var first := Below(live, commit);
    assert first <= i;
  }

  /** `kept` is what is left of the versions from `i` on. */
  ghost predicate Pruned(chain: Chain, i: nat, live: seq<nat>, kept: Chain)
    requires i <= |chain|
  {
    && Thinned(chain, i, kept)
    && (forall k <- live :: Find(kept, k) == Find(chain[i..], k))
    && (live == [] ==> |kept| <= 1)
  }

  ghost predicate Thinned(chain: Chain, i: nat, kept: Chain)
    requires i <= |chain|
  {
    && Ascending(kept) && |kept| <= |chain| - i
    && (forall v <- kept :: v in chain && (i < |chain| ==> chain[i].commit <= v.commit))
    && (i < |chain| ==> kept != [] && kept[|kept| - 1] == chain[|chain| - 1])
  }

  function NextCommit(chain: Chain, i: nat): (next: Option<nat>)
    requires i <= |chain|
  {
    if i < |chain| then Some(chain[i].commit) else None
  }

  /** The versions no open snapshot would read dropped, all but the newest. */
  method Prune(chain: Chain, live: seq<nat>) returns (kept: Chain)
    requires Ascending(chain) && Sorted(live)
    ensures Ascending(kept) && (forall v <- kept :: v in chain)
    ensures chain != [] ==> kept != [] && kept[|kept| - 1] == chain[|chain| - 1]
    ensures forall k <- live :: Find(kept, k) == Find(chain, k)
    ensures live == [] ==> |kept| <= 1
  {
    kept := [];
    var i := |chain|;
    var next: Option<nat> := None;
    while i > 0
      invariant 0 <= i <= |chain| && next == NextCommit(chain, i) && Pruned(chain, i, live, kept)
    {
      hide Pruned, Thinned, Ascending, Sorted;
      i := i - 1;
      PruneOne(chain, i, live, kept);
      if IsRead(live, chain[i].commit, next) || i == |chain| - 1 {
        kept := [chain[i]] + kept;
      }
      next := Some(chain[i].commit);
    }
    assert chain[0..] == chain;
  }

  lemma PruneOne(chain: Chain, i: nat, live: seq<nat>, kept: Chain)
    requires i < |chain| && Ascending(chain) && Sorted(live) && Pruned(chain, i + 1, live, kept)
    ensures var keep := IsRead(live, chain[i].commit, NextCommit(chain, i + 1)) || i == |chain| - 1;
            Pruned(chain, i, live, if keep then [chain[i]] + kept else kept)
  {
    assert live == [] ==> !IsRead(live, chain[i].commit, NextCommit(chain, i + 1));
    hide Find, Below, IsRead, Sorted, Ascending, Thinned;
    var v := chain[i];
    var keep := IsRead(live, v.commit, NextCommit(chain, i + 1)) || i == |chain| - 1;
    ThinOne(chain, i, kept, keep);
    assert chain[i..] == [v] + chain[i + 1..];
    PruneStep(live, v, chain[i + 1..], kept, keep, NextCommit(chain, i + 1));
  }

  lemma ThinOne(chain: Chain, i: nat, kept: Chain, keep: bool)
    requires i < |chain| && Ascending(chain) && Thinned(chain, i + 1, kept) && (i == |chain| - 1 ==> keep)
    ensures Thinned(chain, i, if keep then [chain[i]] + kept else kept)
    ensures Ascending([chain[i]] + chain[i + 1..]) && (i == |chain| - 1 ==> kept == [])
  {
    assert forall v <- kept :: chain[i].commit < v.commit;
    AscendingFront(chain[i], kept);
    assert chain[i..] == [chain[i]] + chain[i + 1..];
    assert Ascending(chain[i..]);
    hide Ascending;
  }

  lemma AscendingFront(v: Version, chain: Chain)
    requires Ascending(chain) && forall x <- chain :: v.commit < x.commit
    ensures Ascending([v] + chain)
  {
  }

  lemma PruneStep(live: seq<nat>, v: Version, chain: Chain, kept: Chain, keep: bool, next: Option<nat>)
    requires Sorted(live) && Ascending([v] + chain)
    requires next == if chain == [] then None else Some(chain[0].commit)
    requires keep <==> IsRead(live, v.commit, next) || chain == []
    requires forall k <- live :: Find(kept, k) == Find(chain, k)
    ensures forall k <- live :: Find(if keep then [v] + kept else kept, k) == Find([v] + chain, k)
  {
    forall k | k in live
      ensures Find(if keep then [v] + kept else kept, k) == Find([v] + chain, k)
    {
      FindFront(v, kept, k);
      FindFront(v, chain, k);
      if !keep && v.commit <= k {
        // The commit falls on a later version.
        if chain[0].commit > k { IsReadMeans(live, v.commit, next, k); }
        FoundFrom(chain, k);
      }
    }
  }

  lemma {:induction false} FoundFrom(chain: Chain, k: nat)
    requires chain != [] && chain[0].commit <= k
    ensures Find(chain, k).Some?
  {
    var n := |chain| - 1;
    if chain[n].commit > k { FoundFrom(chain[..n], k); }
  }

  // ------------------------------------------------------------------- one page

  function Get<V>(m: map<PageId, V>, id: PageId): (v: Option<V>) {
    if id in m then Some(m[id]) else None
  }

  /** Where a page without versions is read: a compaction's image until it is
      copied into the file, else the cache, else the file. */
  datatype Beneath = Beneath(file: Pages, cache: Pages, image: Option<Pages>) {
    function Page(id: PageId): (page: Option<Page>) {
      if image.Some? then Get(image.value, id) else if id in cache then Some(cache[id]) else Get(file, id)
    }
  }

  /** What a reader of commit `k` gets of a page. */
  function Seen(chain: Option<Chain>, beneath: Option<Page>, k: nat): (page: Option<Page>) {
    if chain.Some? then Find(chain.value, k) else beneath
  }

  /** The newest version is the last commit's, and every open snapshot sees the
      page as its own commit left it. */
  ghost predicate Kept(
    chain: Option<Chain>, beneath: Option<Page>, id: PageId, states: seq<Pages>, open: set<nat>)
    requires states != []
  {
    var now := states[|states| - 1];
    && (chain.Some? ==>
          && chain.value != [] && Ascending(chain.value)
          && chain.value[|chain.value| - 1].commit < |states|
          && (id in now ==> chain.value[|chain.value| - 1].page == now[id]))
    && (chain.None? && id in now ==> beneath == Some(now[id]))
    && (forall k <- open :: k < |states| && (id in states[k] ==> Seen(chain, beneath, k) == Some(states[k][id])))
  }

  predicate Waits(chain: Option<Chain>) {
    chain.Some? && chain.value != [] && !chain.value[|chain.value| - 1].written
  }

  /** What the file has of a page that does not wait to be written to it; with
      an image to copy, every version there is waits. */
  ghost predicate Filed(chain: Option<Chain>, b: Beneath, id: PageId, now: Pages) {
    if b.image.Some? then
      (chain.Some? ==> Waits(chain)) && id !in b.cache
    else
      id in now && !Waits(chain) ==>
        && Get(b.file, id) == Some(now[id])
        && (id in b.cache ==> b.cache[id] == now[id])
  }

  lemma UntouchedPage(
    chain: Option<Chain>, beneath: Option<Page>, id: PageId, states: seq<Pages>, open: set<nat>, now: Pages)
    requires states != [] && Kept(chain, beneath, id, states, open)
    requires Get(now, id) == Get(states[|states| - 1], id)
    ensures Kept(chain, beneath, id, states + [now], open)
  {
    hide Ascending;
  }

  /** A page the batch wrote: with snapshots open, the page as the batch found
      it is kept for them. */
  method Write(
    chain: Option<Chain>, before: Option<Page>, page: Page, commit: nat, live: seq<nat>,
    ghost beneath: Option<Page>, ghost id: PageId, ghost states: seq<Pages>, ghost now: Pages, ghost open: set<nat>)
    returns (written: Chain)
    requires states != [] && commit == |states| && Sorted(live) && (forall k <- open :: k in live)
    requires Kept(chain, beneath, id, states, open) && id in now && now[id] == page
    requires id in states[|states| - 1] ==> before == Some(states[|states| - 1][id])
    requires forall k <- open :: id in states[k] ==> id in states[|states| - 1]
    ensures Kept(Some(written), beneath, id, states + [now], open)
    ensures written != [] && written[|written| - 1] == Version(commit, page, false)
  {
    var versions: Chain := if chain.Some? then chain.value else [];
    if chain.None? && live != [] && before.Some? {
      versions := [Version(0, before.value, true)];
    }
    ghost var found := versions;
    versions := versions + [Version(commit, page, false)];
    WroteOver(chain, before, page, commit, live, beneath, id, states, found, open);
    written := Prune(versions, live);
    hide Find, Sorted, Ascending;
  }

  lemma WroteOver(
    chain: Option<Chain>, before: Option<Page>, page: Page, commit: nat, live: seq<nat>,
    beneath: Option<Page>, id: PageId, states: seq<Pages>, found: Chain, open: set<nat>)
    requires states != [] && commit == |states| && Kept(chain, beneath, id, states, open)
    requires forall k <- open :: k in live
    requires id in states[|states| - 1] ==> before == Some(states[|states| - 1][id])
    requires forall k <- open :: id in states[k] ==> id in states[|states| - 1]
    requires found == if chain.Some? then chain.value
                      else if live != [] && before.Some? then [Version(0, before.value, true)] else []
    ensures Ascending(found + [Version(commit, page, false)])
    ensures forall k <- open :: id in states[k] ==>
              Find(found + [Version(commit, page, false)], k) == Some(states[k][id])
  {
    var all := found + [Version(commit, page, false)];
    assert all[..|found|] == found;
  }

  lemma OneVersion(chain: Chain, k: nat)
    requires |chain| == 1
    ensures Find(chain, k) == if chain[0].commit <= k then Some(chain[0].page) else None
  {
    assert chain[..|chain| - 1] == [];
  }

  /** Pruning a page for `live` leaves the last commit and its snapshots' pages
      alone; a lone version the file holds need not be kept. */
  lemma ForgetPage(
    chain: Chain, kept: Chain, b: Beneath, id: PageId, states: seq<Pages>, open: set<nat>)
    requires states != [] && Kept(Some(chain), b.Page(id), id, states, open)
    requires Filed(Some(chain), b, id, states[|states| - 1])
    requires Ascending(kept) && kept != [] && kept[|kept| - 1] == chain[|chain| - 1]
    requires forall k <- open :: k == |states| - 1 || Find(kept, k) == Find(chain, k)
    requires forall k <- open :: k < |states| && (id in states[k] ==> id in states[|states| - 1])
    ensures Kept(Some(kept), b.Page(id), id, states, open)
    ensures Filed(Some(kept), b, id, states[|states| - 1])
    ensures |kept| == 1 && kept[0].written ==>
              Kept(None, b.Page(id), id, states, open) && Filed(None, b, id, states[|states| - 1])
  {
    hide Ascending;
    if |kept| == 1 && kept[0].written {
      assert kept[|kept| - 1] == kept[0] == chain[|chain| - 1];
      assert !Waits(Some(chain));
      hide Waits, Find;
      forall k | k in open && id in states[k] ensures b.Page(id) == Some(states[k][id]) {
        assert b.Page(id) == Some(kept[0].page);
        if k < |states| - 1 {
          assert Seen(Some(chain), b.Page(id), k) == Some(states[k][id]);
          OneVersion(kept, k);
        }
      }
    }
  }

  // ------------------------------------------------------------- the whole store

  /** Of the open snapshots' commits those the limit has not ended. */
  function StillOpen(live: seq<nat>, endedBefore: nat): (open: seq<nat>) {
    live[Below(live, endedBefore)..]
  }

  lemma StillOpenHolds(live: seq<nat>, endedBefore: nat)
    requires Sorted(live)
    ensures Sorted(StillOpen(live, endedBefore))
    ensures forall k :: k in StillOpen(live, endedBefore) <==> k in live && k >= endedBefore
  {
    var n := Below(live, endedBefore);
    forall k | k in live && k >= endedBefore ensures k in live[n..] {
      var i :| 0 <= i < |live| && live[i] == k;
      assert live[n..][i - n] == k;
    }
  }

  /** How many versions are kept for open snapshots only. */
  ghost function Older(versions: map<PageId, Chain>): (n: int) {
    if versions == map[] then 0
    else
      var id :| id in versions;
      |versions[id]| - 1 + Older(versions - {id})
  }

  lemma EmptyIsNone()
    ensures Older(map[]) == 0
  {
  }

  lemma {:induction false} OlderWithout(versions: map<PageId, Chain>, id: PageId)
    requires id in versions
    ensures Older(versions) == |versions[id]| - 1 + Older(versions - {id})
    decreases versions
  {
    var first :| id in versions && first in versions
      && Older(versions) == |versions[first]| - 1 + Older(versions - {first});
    if first != id {
      OlderWithout(versions - {first}, id);
      OlderWithout(versions - {id}, first);
      assert versions - {first} - {id} == versions - {id} - {first};
    }
  }

  lemma OlderPut(versions: map<PageId, Chain>, id: PageId, chain: Chain)
    ensures Older(versions[id := chain])
         == Older(versions) + |chain| - 1 - (if id in versions then |versions[id]| - 1 else 0)
  {
    var put := versions[id := chain];
    OlderWithout(put, id);
    if id in versions {
      OlderWithout(versions, id);
      assert put - {id} == versions - {id};
    } else {
      assert put - {id} == versions;
    }
  }

  /** Every page is right for the last commit and for `open`. */
  ghost predicate AllKept(versions: map<PageId, Chain>, b: Beneath, states: seq<Pages>, open: set<nat>)
    requires states != []
  {
    forall id :: Kept(Get(versions, id), b.Page(id), id, states, open)
              && Filed(Get(versions, id), b, id, states[|states| - 1])
  }

  /** No open snapshot has a page the last commit has not: only replacing the
      whole file takes pages away, and none is open then. */
  ghost predicate Grows(states: seq<Pages>, open: set<nat>)
    requires states != []
  {
    forall k <- open :: k < |states| && states[k].Keys <= states[|states| - 1].Keys
  }

  lemma Untouched(
    versions: map<PageId, Chain>, b: Beneath, states: seq<Pages>, open: set<nat>, now: Pages, id: PageId)
    requires states != [] && AllKept(versions, b, states, open)
    requires Get(now, id) == Get(states[|states| - 1], id)
    ensures Kept(Get(versions, id), b.Page(id), id, states + [now], open) && Filed(Get(versions, id), b, id, now)
  {
    assert Kept(Get(versions, id), b.Page(id), id, states, open);
    UntouchedPage(Get(versions, id), b.Page(id), id, states, open, now);
  }

  /** A commit under way: the pages of `todo` not put in yet. */
  ghost predicate Committing(
    versions: map<PageId, Chain>, b: Beneath, states: seq<Pages>, open: set<nat>, now: Pages, todo: set<PageId>)
    requires states != []
  {
    && (forall id <- todo :: Kept(Get(versions, id), b.Page(id), id, states, open))
    && (forall id :: id !in todo ==>
          Kept(Get(versions, id), b.Page(id), id, states + [now], open) && Filed(Get(versions, id), b, id, now))
  }

  lemma CommitBegins(
    versions: map<PageId, Chain>, b: Beneath, states: seq<Pages>, open: set<nat>, now: Pages, dirty: Pages)
    requires states != [] && AllKept(versions, b, states, open) && now == states[|states| - 1] + dirty
    ensures Committing(versions, b, states, open, now, dirty.Keys)
  {
    hide Kept, Filed;
    forall id | id !in dirty.Keys
      ensures Kept(Get(versions, id), b.Page(id), id, states + [now], open) && Filed(Get(versions, id), b, id, now)
    {
      Untouched(versions, b, states, open, now, id);
    }
    forall id | id in dirty.Keys ensures Kept(Get(versions, id), b.Page(id), id, states, open) {
      assert Kept(Get(versions, id), b.Page(id), id, states, open);
    }
  }

  lemma CommitOne(
    versions: map<PageId, Chain>, b: Beneath, states: seq<Pages>, open: set<nat>, now: Pages, todo: set<PageId>,
    id: PageId, written: Chain)
    requires states != [] && Committing(versions, b, states, open, now, todo) && id in todo
    requires Kept(Some(written), b.Page(id), id, states + [now], open) && Waits(Some(written))
    requires b.image.Some? ==> b.cache == map[]
    ensures Committing(versions[id := written], b, states, open, now, todo - {id})
  {
    hide Kept;
    var put := versions[id := written];
    assert Filed(Some(written), b, id, now);
    hide Filed;
    assert Get(put, id) == Some(written);
    forall other | other != id ensures Get(put, other) == Get(versions, other) {
    }
    assert forall other <- todo - {id} :: other in todo && other != id;
  }

  lemma CommitDone(
    versions: map<PageId, Chain>, b: Beneath, states: seq<Pages>, open: set<nat>, now: Pages)
    requires states != [] && Committing(versions, b, states, open, now, {})
    ensures AllKept(versions, b, states + [now], open)
  {
    hide Kept, Filed;
    forall id
      ensures Kept(Get(versions, id), b.Page(id), id, states + [now], open) && Filed(Get(versions, id), b, id, now)
    {
      assert id !in {};
    }
  }

  lemma ForgetOne(
    versions: map<PageId, Chain>, b: Beneath, states: seq<Pages>, open: set<nat>, id: PageId, kept: Chain)
    requires states != [] && AllKept(versions, b, states, open) && Grows(states, open) && id in versions
    requires Ascending(kept) && (versions[id] != [] ==> kept != [] && kept[|kept| - 1] == versions[id][|versions[id]| - 1])
    requires forall k <- open :: k == |states| - 1 || Find(kept, k) == Find(versions[id], k)
    ensures kept != []
    ensures AllKept(versions[id := kept], b, states, open)
    ensures |kept| == 1 && kept[0].written ==> AllKept(versions - {id}, b, states, open)
  {
    hide Ascending, Find;
    assert Kept(Get(versions, id), b.Page(id), id, states, open);
    assert Filed(Get(versions, id), b, id, states[|states| - 1]);
    ForgetPage(versions[id], kept, b, id, states, open);
    AllButOne(versions, versions[id := kept], b, states, open, id);
    AllButOne(versions, versions - {id}, b, states, open, id);
  }

  lemma AllButOne(
    versions: map<PageId, Chain>, after: map<PageId, Chain>, b: Beneath, states: seq<Pages>, open: set<nat>,
    id: PageId)
    requires states != [] && AllKept(versions, b, states, open)
    requires forall other :: other != id ==> Get(after, other) == Get(versions, other)
    ensures AllKept(after, b, states, open) <==>
              Kept(Get(after, id), b.Page(id), id, states, open) && Filed(Get(after, id), b, id, states[|states| - 1])
  {
    hide Kept, Filed;
    assert forall other :: other != id ==>
             Kept(Get(after, other), b.Page(other), other, states, open)
             && Filed(Get(after, other), b, other, states[|states| - 1]);
  }

  lemma FewerOpen(versions: map<PageId, Chain>, b: Beneath, states: seq<Pages>, open: set<nat>, fewer: set<nat>)
    requires states != [] && AllKept(versions, b, states, open) && fewer <= open
    ensures AllKept(versions, b, states, fewer)
  {
    hide Filed, Ascending, Seen;
    forall id
      ensures Kept(Get(versions, id), b.Page(id), id, states, fewer)
           && Filed(Get(versions, id), b, id, states[|states| - 1])
    {
      assert Kept(Get(versions, id), b.Page(id), id, states, open);
    }
  }

  /** The snapshots the limit has not ended. */
  ghost function Unended(open: set<nat>, endedBefore: nat): (still: set<nat>) {
    set k <- open | k >= endedBefore
  }

  lemma EndOldest(live: seq<nat>, endedBefore: nat)
    requires Sorted(live) && StillOpen(live, endedBefore) != []
    ensures var oldest := StillOpen(live, endedBefore)[0];
            oldest >= endedBefore && |StillOpen(live, oldest + 1)| < |StillOpen(live, endedBefore)|
  {
    var n := Below(live, endedBefore);
    assert Below(live, live[n] + 1) > n;
  }

  lemma CommitPage(
    versions: map<PageId, Chain>, b: Beneath, states: seq<Pages>, open: set<nat>, now: Pages, todo: set<PageId>,
    id: PageId)
    requires states != [] && Committing(versions, b, states, open, now, todo) && id in todo
    ensures Kept(Get(versions, id), b.Page(id), id, states, open)
  {
  }

  /** The last commit's own pages can always be read. */
  lemma LastIsOpen(versions: map<PageId, Chain>, b: Beneath, states: seq<Pages>, open: set<nat>)
    requires states != [] && AllKept(versions, b, states, open)
    ensures AllKept(versions, b, states, open + {|states| - 1})
  {
    hide Filed, Ascending;
    forall id
      ensures Kept(Get(versions, id), b.Page(id), id, states, open + {|states| - 1})
           && Filed(Get(versions, id), b, id, states[|states| - 1])
    {
      assert Kept(Get(versions, id), b.Page(id), id, states, open);
    }
  }

  /** What looking a page up gives: too old, the page (or none: damaged), or that
      the file has it, as of so many checkpoints begun. */
  datatype Lookup = TooOld | Found(page: Option<Page>) | InFile(epoch: nat)

  class Memory {
    var file: Pages
    var cache: Pages
    /** A compaction's image, in place of the file until copied in. */
    var image: Option<Pages>
    var versions: map<PageId, Chain>
    /** The last commit's number. */
    var commit: nat
    /** Counts the checkpoints begun. */
    var epoch: nat
    /** How many versions are kept for open snapshots only, at most how many. */
    var older: int
    const limit: nat
    /** Snapshots of commits before this were ended by the limit. */
    var endedBefore: nat

    constructor (pages: Pages, versionLimit: nat)
      ensures commit == epoch == endedBefore == 0 && file == pages && limit == versionLimit
      ensures Holds([pages], {0})
    {
      file, cache, image, versions := pages, map[], None, map[];
      commit, epoch, older, limit, endedBefore := 0, 0, 0, versionLimit, 0;
      new;
      EmptyIsNone();
      hide Older;
    }

    function Under(): (b: Beneath)
      reads this
    {
      Beneath(file, cache, image)
    }

    /** Commit `i` left `states[i]`, and every snapshot of `open` reads its own. */
    ghost predicate Holds(states: seq<Pages>, open: set<nat>)
      reads this
    {
      && |states| == commit + 1
      && AllKept(versions, Under(), states, open)
      && Grows(states, open)
      && older == Older(versions)
      && (image.Some? ==> cache == map[])
      && endedBefore <= commit
    }

    /** `forget`: the versions no open snapshot would read dropped in every page,
        and a page left with one version, which the file holds, has none. */
    method Forget(live: seq<nat>, ghost states: seq<Pages>, ghost open: set<nat>)
      requires Sorted(live) && Holds(states, open)
      requires forall k <- open :: k == commit || (k in live && k >= endedBefore)
      modifies this`versions, this`older
      ensures Holds(states, open)
      ensures StillOpen(live, endedBefore) == [] ==> older == 0
      ensures Waiting(versions) == Waiting(old(versions))
    {
      hide AllKept, Older, StillOpen, Grows, Waiting, Sorted;
      var still := StillOpen(live, endedBefore);
      StillOpenHolds(live, endedBefore);
      EmptyIsNone();
      var rest, sum := versions, 0;
      while rest != map[]
        invariant AllKept(versions, Under(), states, open)
        invariant forall id <- rest :: id in versions && rest[id] == versions[id]
        invariant Older(versions) == sum + Older(rest)
        invariant Waiting(versions) == Waiting(old(versions))
        invariant still == [] ==> sum == 0
        decreases rest
      {
        var id :| id in rest;
        OlderWithout(rest, id);
        var n := ForgetIn(id, still, states, open);
        sum, rest := sum + n, rest - {id};
      }
      older := sum;
    }

    method ForgetIn(id: PageId, still: seq<nat>, ghost states: seq<Pages>, ghost open: set<nat>) returns (n: nat)
      requires states != [] && id in versions && AllKept(versions, Under(), states, open) && Grows(states, open)
      requires Sorted(still) && forall k <- open :: k == |states| - 1 || k in still
      modifies this`versions
      ensures AllKept(versions, Under(), states, open) && Waiting(versions) == Waiting(old(versions))
      ensures Older(versions) == n + Older(old(versions)) - (|old(versions)[id]| - 1)
      ensures forall other <- old(versions) :: other != id ==> other in versions && versions[other] == old(versions)[other]
      ensures still == [] ==> n == 0
    {
      hide AllKept, Older, Grows, Waiting;
      KeptIsAscending(versions, Under(), states, open, id);
      var kept := Prune(versions[id], still);
      ForgetOne(versions, Under(), states, open, id, kept);
      OlderWithout(versions, id);
      OlderPut(versions, id, kept);
      WaitsStill(versions, id, kept);
      n := |kept| - 1;
      if |kept| == 1 && kept[0].written {
        versions := versions - {id};
      } else {
        versions := versions[id := kept];
      }
    }

    /** `keep_within_limit`: the oldest open snapshots ended, one commit at a
        time, until the versions kept for the rest are within the limit. */
    method KeepWithinLimit(live: seq<nat>, ghost states: seq<Pages>, ghost open: set<nat>)
      requires Sorted(live) && Holds(states, open)
      requires forall k <- live :: k < commit
      requires forall k <- open :: k == commit || (k in live && k >= endedBefore)
      modifies this`versions, this`older, this`endedBefore
      ensures older <= limit && endedBefore >= old(endedBefore)
      ensures old(older) <= limit ==> endedBefore == old(endedBefore) && versions == old(versions)
      ensures Holds(states, Unended(open, endedBefore))
    {
      hide AllKept, Older, Grows;
      assert Unended(open, endedBefore) == open;
      while older > limit
        invariant old(endedBefore) <= endedBefore <= commit
        invariant old(older) <= limit ==> older == old(older) && endedBefore == old(endedBefore) && versions == old(versions)
        invariant Holds(states, Unended(open, endedBefore))
        decreases |StillOpen(live, endedBefore)|
      {
        hide StillOpen, Sorted, Holds, Unended;
        if StillOpen(live, endedBefore) == [] {
          ForgetFor(live, states, open);
          return;
        }
        EndOne(live, states, open);
      }
    }

    method ForgetFor(live: seq<nat>, ghost states: seq<Pages>, ghost open: set<nat>)
      requires Sorted(live) && Holds(states, Unended(open, endedBefore))
      requires forall k <- open :: k == commit || k in live
      modifies this`versions, this`older
      ensures Holds(states, Unended(open, endedBefore))
      ensures StillOpen(live, endedBefore) == [] ==> older == 0
    {
      hide Holds, StillOpen, Sorted;
      Forget(live, states, Unended(open, endedBefore));
    }

    method EndOne(live: seq<nat>, ghost states: seq<Pages>, ghost open: set<nat>)
      requires Sorted(live) && Holds(states, Unended(open, endedBefore))
      requires forall k <- live :: k < commit
      requires forall k <- open :: k == commit || k in live
      requires StillOpen(live, endedBefore) != []
      modifies this`versions, this`older, this`endedBefore
      ensures old(endedBefore) < endedBefore <= commit
      ensures Holds(states, Unended(open, endedBefore))
      ensures |StillOpen(live, endedBefore)| < |StillOpen(live, old(endedBefore))|
    {
      hide AllKept, Older, Grows, Sorted, Unended;
      var oldest := StillOpen(live, endedBefore)[0];
      assert oldest in live;
      EndOldest(live, endedBefore);
      hide StillOpen;
      LessOpen(states, open, oldest + 1);
      endedBefore := oldest + 1;
      ForgetFor(live, states, open);
    }

    lemma FewerHold(states: seq<Pages>, open: set<nat>, fewer: set<nat>)
      requires Holds(states, open) && fewer <= open
      ensures Holds(states, fewer)
    {
      hide AllKept, Older;
      FewerOpen(versions, Under(), states, open, fewer);
    }

    lemma LessOpen(states: seq<Pages>, open: set<nat>, before: nat)
      requires Holds(states, Unended(open, endedBefore)) && endedBefore <= before
      ensures AllKept(versions, Under(), states, Unended(open, before)) && Grows(states, Unended(open, before))
    {
      hide AllKept;
      FewerOpen(versions, Under(), states, Unended(open, endedBefore), Unended(open, before));
    }

    /** `commit`: a batch's pages become the newest, under the next commit number.
        `before` has the pages as the batch found them. */
    method Commit(
      dirty: Pages, before: Pages, live: seq<nat>, ghost states: seq<Pages>, ghost open: set<nat>)
      requires Sorted(live) && Holds(states, open)
      requires forall k <- live :: k <= commit
      requires forall k <- open :: k in live && k >= endedBefore
      requires forall id <- dirty :: id in states[commit] ==> Get(before, id) == Some(states[commit][id])
      modifies this`versions, this`older, this`endedBefore, this`commit
      ensures commit == old(commit) + 1 && older <= limit && endedBefore >= old(endedBefore)
      ensures Holds(states + [states[old(commit)] + dirty], Unended(open, endedBefore) + {commit})
    {
      hide AllKept, Older, Committing, StillOpen, Sorted;
      StillOpenHolds(live, endedBefore);
      ghost var now := states[commit] + dirty;
      CommitBegins(versions, Under(), states, open, now, dirty);
      commit := commit + 1;
      PutIn(dirty, before, StillOpen(live, endedBefore), states, now, open);
      CommitDone(versions, Under(), states, open, now);
      LastIsOpen(versions, Under(), states + [now], open);
      KeepWithinLimit(live, states + [now], open + {commit});
      assert Unended(open + {commit}, endedBefore) == Unended(open, endedBefore) + {commit};
    }

    method PutIn(
      dirty: Pages, before: Pages, still: seq<nat>,
      ghost states: seq<Pages>, ghost now: Pages, ghost open: set<nat>)
      requires states != [] && commit == |states| && Sorted(still) && now == states[|states| - 1] + dirty
      requires Committing(versions, Under(), states, open, now, dirty.Keys) && older == Older(versions)
      requires Grows(states, open) && (image.Some? ==> cache == map[]) && (forall k <- open :: k in still)
      requires forall id <- dirty :: id in states[commit - 1] ==> Get(before, id) == Some(states[commit - 1][id])
      modifies this`versions, this`older
      ensures Committing(versions, Under(), states, open, now, {}) && older == Older(versions)
    {
      var todo := dirty.Keys;
      while todo != {}
        invariant todo <= dirty.Keys && older == Older(versions)
        invariant Committing(versions, Under(), states, open, now, todo)
        decreases todo
      {
        hide Committing, Sorted, Older, Grows;
        var id :| id in todo;
        PutOne(id, dirty[id], Get(before, id), still, states, now, open, todo);
        todo := todo - {id};
      }
    }

    method PutOne(
      id: PageId, page: Page, before: Option<Page>, still: seq<nat>,
      ghost states: seq<Pages>, ghost now: Pages, ghost open: set<nat>, ghost todo: set<PageId>)
      requires states != [] && commit == |states| && Sorted(still) && id in todo && id in now && now[id] == page
      requires Committing(versions, Under(), states, open, now, todo) && older == Older(versions)
      requires Grows(states, open) && (image.Some? ==> cache == map[]) && (forall k <- open :: k in still)
      requires id in states[commit - 1] ==> before == Some(states[commit - 1][id])
      modifies this`versions, this`older
      ensures Committing(versions, Under(), states, open, now, todo - {id}) && older == Older(versions)
    {
      hide Committing, Kept, Sorted, Older;
      CommitPage(versions, Under(), states, open, now, todo, id);
      var written := Write(Get(versions, id), before, page, commit, still,
                           Under().Page(id), id, states, now, open);
      hide Grows;
      var olderBefore := if id in versions then |versions[id]| - 1 else 0;
      CommitOne(versions, Under(), states, open, now, todo, id, written);
      OlderPut(versions, id, written);
      versions := versions[id := written];
      older := older - olderBefore + (|written| - 1);
    }

    /** `commit_replacing`: a compaction's image becomes every page past the
        header, `dirty` (the header) its own newest version. All the versions go:
        no snapshot is open. */
    method CommitReplacing(dirty: Pages, scratch: Pages, ghost states: seq<Pages>)
      requires Holds(states, {})
      modifies this`versions, this`older, this`cache, this`image, this`epoch, this`commit
      ensures commit == old(commit) + 1 && epoch == old(epoch) + 1 && older <= limit
      ensures Holds(states + [scratch + dirty], {commit})
    {
      hide AllKept, Older;
      commit, epoch := commit + 1, epoch + 1;
      versions := map id <- dirty :: [Version(commit, dirty[id], false)];
      older, cache, image := 0, map[], Some(scratch);
      NoneOlder(versions);
      Replaced(dirty, Beneath(file, map[], Some(scratch)), commit, states);
    }

    /** The pages a batch is about to change, as it finds them. */
    method AsFound(dirty: Pages, ghost states: seq<Pages>, ghost open: set<nat>) returns (before: Pages)
      requires Holds(states, open)
      ensures forall id <- dirty :: id in states[commit] ==> Get(before, id) == Some(states[commit][id])
    {
      before := map id <- dirty | Newest(id).Some? :: Newest(id).value;
      forall id | id in dirty && id in states[commit] ensures Get(before, id) == Some(states[commit][id]) {
        assert Kept(Get(versions, id), Under().Page(id), id, states, open);
      }
    }

    function Newest(id: PageId): (page: Option<Page>)
      reads this
    {
      if id in versions && versions[id] != [] then Some(versions[id][|versions[id]| - 1].page) else Under().Page(id)
    }

    /** The first half of `read_at`, under the lock. */
    method LookUp(id: PageId, k: nat, ghost states: seq<Pages>, ghost open: set<nat>) returns (found: Lookup)
      requires Holds(states, open) && (k in open || k < endedBefore)
      ensures found == TooOld && k in open && id in states[k] ==> k < endedBefore
      ensures k < endedBefore ==> found == TooOld
      ensures found.Found? && k in open && id in states[k] ==> found.page == Some(states[k][id])
      ensures found.InFile? ==> found.epoch == epoch && image.None? && id !in versions && k >= endedBefore
      ensures found.InFile? && k in open && id in states[k] ==> Get(file, id) == Some(states[k][id])
    {
      assert Kept(Get(versions, id), Under().Page(id), id, states, open);
      assert Filed(Get(versions, id), Under(), id, states[commit]);
      if k < endedBefore {
        return TooOld;
      }
      if id in versions {
        var page := Find(versions[id], k);
        return if page.Some? then Found(page) else TooOld;
      }
      if image.Some? {
        return Found(Get(image.value, id));
      }
      if id in cache {
        return Found(Some(cache[id]));
      }
      found := InFile(epoch);
    }

    /** Its second half: what was read from the file since, unless a checkpoint
        began meanwhile. */
    method Take(
      id: PageId, page: Option<Page>, since: nat, ghost states: seq<Pages>, ghost open: set<nat>)
      returns (found: Option<Lookup>)
      requires Holds(states, open)
      requires since == epoch ==> image.None? && page == Get(file, id)
      modifies this`cache
      ensures Holds(states, open)
      ensures found == if since == epoch then Some(Found(page)) else None
    {
      if since != epoch {
        return None;
      }
      if page.Some? {
        Recached(versions, Under(), Under().(cache := cache[id := page.value]), states, open);
        hide AllKept, Older;
        cache := cache[id := page.value];
      }
      found := Some(Found(page));
    }

    /** The cache makes room. */
    method Evict(id: PageId, ghost states: seq<Pages>, ghost open: set<nat>)
      requires Holds(states, open)
      modifies this`cache
      ensures Holds(states, open)
    {
      if image.None? {
        Recached(versions, Under(), Under().(cache := cache - {id}), states, open);
      }
      hide AllKept, Older;
      cache := cache - {id};
    }

    /** `checkpoint` begins: readers of the file will look again. */
    method BeginCheckpoint(ghost states: seq<Pages>, ghost open: set<nat>) returns (target: Pages)
      requires Holds(states, open)
      modifies this`epoch
      ensures Holds(states, open) && epoch == old(epoch) + 1 && target == Target(versions, image)
    {
      epoch := epoch + 1;
      target := Target(versions, image);
    }

    /** A page of the file written, or half written: anything at all. */
    method WriteFile(id: PageId, page: Page, ghost states: seq<Pages>, ghost open: set<nat>)
      requires Holds(states, open) && id in Target(versions, image)
      modifies this`file
      ensures Holds(states, open) && file == old(file)[id := page]
    {
      FileTouched(versions, Under(), Under().(file := file[id := page]), states, open, id);
      hide AllKept, Older;
      file := file[id := page];
    }

    /** `checkpoint` ends: the file cut to the last commit's pages and flushed,
        what waited is marked as written, and versions nobody reads go. */
    method EndCheckpoint(pageCount: nat, live: seq<nat>, ghost states: seq<Pages>, ghost open: set<nat>)
      requires Sorted(live) && Holds(states, open)
      requires forall k <- open :: k == commit || (k in live && k >= endedBefore)
      requires forall id <- states[commit] :: id < pageCount
      requires forall id <- Target(versions, image) :: Get(file, id) == Some(Target(versions, image)[id])
      modifies this`file, this`cache, this`versions, this`image, this`older
      ensures Holds(states, open) && image.None? && Waiting(versions) == map[]
      ensures forall id <- states[commit] :: Get(file, id) == Some(states[commit][id])
      ensures forall id: PageId :: id < pageCount ==> Get(file, id) == Get(old(file), id)
    {
      hide AllKept, Older, Marked, Waiting, Target, Grows;
      var after := Beneath(CutTo(file, pageCount), CutTo(cache + Waiting(versions), pageCount), None);
      Checkpointed(versions, Under(), after, states, open);
      OlderMarked(versions);
      file, cache, versions, image := after.file, after.cache, Marked(versions), None;
      Forget(live, states, open);
      FileIsLast(versions, Under(), states, open);
    }
  }

  /** The pages below `pageCount`. */
  function CutTo(pages: Pages, pageCount: nat): (cut: Pages)
    ensures forall id: PageId :: Get(cut, id) == if id < pageCount then Get(pages, id) else None
  {
    map id <- pages | id < pageCount :: pages[id]
  }

  /** The newest versions that wait to be written to the file. */
  function Waiting(versions: map<PageId, Chain>): (waiting: Pages) {
    map id <- versions | Waits(Some(versions[id])) :: versions[id][|versions[id]| - 1].page
  }

  /** What a checkpoint writes, and where: the image, then what waits. */
  function Target(versions: map<PageId, Chain>, image: Option<Pages>): (target: Pages) {
    (if image.Some? then image.value else map[]) + Waiting(versions)
  }

  function Mark(chain: Chain): (marked: Chain)
    requires chain != []
  {
    var n := |chain| - 1;
    chain[..n] + [chain[n].(written := true)]
  }

  function Marked(versions: map<PageId, Chain>): (marked: map<PageId, Chain>) {
    map id <- versions :: if Waits(Some(versions[id])) then Mark(versions[id]) else versions[id]
  }

  lemma MarkKeeps(chain: Chain, k: nat)
    requires chain != []
    ensures |Mark(chain)| == |chain| && Find(Mark(chain), k) == Find(chain, k)
    ensures Ascending(chain) ==> Ascending(Mark(chain))
  {
    var n := |chain| - 1;
    assert Mark(chain)[..n] == chain[..n];
  }

  /** The file holds a checkpoint's target: from then on it is read, and every
      page is as it was. */
  lemma Checkpointed(versions: map<PageId, Chain>, b: Beneath, after: Beneath, states: seq<Pages>, open: set<nat>)
    requires states != [] && AllKept(versions, b, states, open) && Grows(states, open)
    requires b.image.Some? ==> b.cache == map[]
    requires forall id <- Target(versions, b.image) :: Get(b.file, id) == Some(Target(versions, b.image)[id])
    requires after.image.None? && forall id <- states[|states| - 1] ::
               && Get(after.file, id) == Get(b.file, id)
               && Get(after.cache, id) == if id in Waiting(versions) then Get(Waiting(versions), id) else Get(b.cache, id)
    ensures AllKept(Marked(versions), after, states, open)
    ensures forall id <- versions :: versions[id] != []
  {
    forall id | id in versions ensures versions[id] != [] {
      KeptIsAscending(versions, b, states, open, id);
    }
    hide Marked, Waiting, Target;
    forall id
      ensures Kept(Get(Marked(versions), id), after.Page(id), id, states, open)
           && Filed(Get(Marked(versions), id), after, id, states[|states| - 1])
    {
      assert Kept(Get(versions, id), b.Page(id), id, states, open);
      assert Filed(Get(versions, id), b, id, states[|states| - 1]);
      TargetOf(versions, b.image, id);
      CheckpointedPage(Get(versions, id), b, after, id, states, open);
    }
  }

  ghost function MarkedPage(chain: Option<Chain>): (marked: Option<Chain>) {
    if Waits(chain) then Some(Mark(chain.value)) else chain
  }

  lemma TargetOf(versions: map<PageId, Chain>, image: Option<Pages>, id: PageId)
    ensures Get(Marked(versions), id) == MarkedPage(Get(versions, id))
    ensures id in Waiting(versions) <==> Waits(Get(versions, id))
    ensures id in Target(versions, image) <==> Waits(Get(versions, id)) || (image.Some? && id in image.value)
    ensures Waits(Get(versions, id)) ==>
              && id in Target(versions, image)
              && Waiting(versions)[id] == Target(versions, image)[id] == versions[id][|versions[id]| - 1].page
    ensures !Waits(Get(versions, id)) && image.Some? && id in image.value ==>
              id in Target(versions, image) && Target(versions, image)[id] == image.value[id]
  {
  }

  lemma CheckpointedPage(
    chain: Option<Chain>, b: Beneath, after: Beneath, id: PageId, states: seq<Pages>, open: set<nat>)
    requires states != [] && Kept(chain, b.Page(id), id, states, open) && Filed(chain, b, id, states[|states| - 1])
    requires Grows(states, open) && (b.image.Some? ==> b.cache == map[]) && after.image.None?
    requires Waits(chain) ==> Get(b.file, id) == Some(chain.value[|chain.value| - 1].page)
    requires !Waits(chain) && b.image.Some? && id in b.image.value ==> Get(b.file, id) == Some(b.image.value[id])
    requires id in states[|states| - 1] ==>
               && Get(after.file, id) == Get(b.file, id)
               && (Get(after.cache, id)
                   == if Waits(chain) then Some(chain.value[|chain.value| - 1].page) else Get(b.cache, id))
    ensures Kept(MarkedPage(chain), after.Page(id), id, states, open)
    ensures Filed(MarkedPage(chain), after, id, states[|states| - 1])
  {
    hide Ascending, Find;
    if Waits(chain) {
      forall k ensures Find(Mark(chain.value), k) == Find(chain.value, k)
        && (Ascending(chain.value) ==> Ascending(Mark(chain.value))) {
        MarkKeeps(chain.value, k);
      }
      MarkKeeps(chain.value, 0);
    }
  }

  lemma OlderMarked(versions: map<PageId, Chain>)
    requires forall id <- versions :: versions[id] != []
    ensures Older(Marked(versions)) == Older(versions)
    ensures Waiting(Marked(versions)) == map[]
  {
    SameLengths(versions, Marked(versions));
  }

  lemma {:induction false} SameLengths(versions: map<PageId, Chain>, marked: map<PageId, Chain>)
    requires versions.Keys == marked.Keys && forall id <- versions :: |marked[id]| == |versions[id]|
    ensures Older(marked) == Older(versions)
    decreases versions
  {
    if versions == map[] {
      assert marked == map[];
    } else {
      var id :| id in versions;
      OlderWithout(versions, id);
      OlderWithout(marked, id);
      SameLengths(versions - {id}, marked - {id});
    }
  }

  lemma FileTouched(
    versions: map<PageId, Chain>, b: Beneath, after: Beneath, states: seq<Pages>, open: set<nat>, id: PageId)
    requires states != [] && AllKept(versions, b, states, open) && id in Target(versions, b.image)
    requires after.image == b.image && after.cache == b.cache
    requires forall other :: other != id ==> Get(after.file, other) == Get(b.file, other)
    ensures AllKept(versions, after, states, open)
  {
    hide Ascending, Find;
    TargetOf(versions, b.image, id);
    forall other
      ensures Kept(Get(versions, other), after.Page(other), other, states, open)
           && Filed(Get(versions, other), after, other, states[|states| - 1])
    {
      assert Kept(Get(versions, other), b.Page(other), other, states, open);
      assert Filed(Get(versions, other), b, other, states[|states| - 1]);
    }
  }

  /** Nothing waits: the file has every page as the last commit left it. */
  lemma FileIsLast(versions: map<PageId, Chain>, b: Beneath, states: seq<Pages>, open: set<nat>)
    requires states != [] && AllKept(versions, b, states, open) && b.image.None? && Waiting(versions) == map[]
    ensures forall id <- states[|states| - 1] :: Get(b.file, id) == Some(states[|states| - 1][id])
  {
    forall id | id in states[|states| - 1] ensures Get(b.file, id) == Some(states[|states| - 1][id]) {
      assert Filed(Get(versions, id), b, id, states[|states| - 1]);
      TargetOf(versions, None, id);
      assert id !in Waiting(versions);
    }
  }

  lemma KeptIsAscending(
    versions: map<PageId, Chain>, b: Beneath, states: seq<Pages>, open: set<nat>, id: PageId)
    requires states != [] && AllKept(versions, b, states, open) && id in versions
    ensures Ascending(versions[id]) && versions[id] != []
  {
    assert Kept(Get(versions, id), b.Page(id), id, states, open);
  }

  lemma Replaced(dirty: Pages, b: Beneath, commit: nat, states: seq<Pages>)
    requires |states| == commit && b.image.Some? && b.cache == map[]
    ensures AllKept(map id <- dirty :: [Version(commit, dirty[id], false)], b, states + [b.image.value + dirty], {commit})
  {
    var versions := map id <- dirty :: [Version(commit, dirty[id], false)];
    var all := states + [b.image.value + dirty];
    forall id: PageId
      ensures Kept(Get(versions, id), b.Page(id), id, all, {commit}) && Filed(Get(versions, id), b, id, all[commit])
    {
      if id in dirty { OneVersion(versions[id], commit); }
    }
  }

  lemma {:induction false} NoneOlder(versions: map<PageId, Chain>)
    requires forall id <- versions :: |versions[id]| == 1
    ensures Older(versions) == 0
    decreases versions
  {
    if versions != map[] {
      var id :| id in versions;
      OlderWithout(versions, id);
      NoneOlder(versions - {id});
    }
  }

  /** A page put into the cache as the file has it, or evicted, changes nothing. */
  lemma Recached(versions: map<PageId, Chain>, b: Beneath, after: Beneath, states: seq<Pages>, open: set<nat>)
    requires states != [] && AllKept(versions, b, states, open) && Grows(states, open)
    requires b.image.None? && after.image.None? && after.file == b.file
    requires forall id <- after.cache :: Get(b.cache, id) == Some(after.cache[id]) || Get(b.file, id) == Some(after.cache[id])
    ensures AllKept(versions, after, states, open)
  {
    hide Ascending;
    forall id
      ensures Kept(Get(versions, id), after.Page(id), id, states, open)
           && Filed(Get(versions, id), after, id, states[|states| - 1])
    {
      assert Kept(Get(versions, id), b.Page(id), id, states, open);
      assert Filed(Get(versions, id), b, id, states[|states| - 1]);
      if id in versions {
        assert Get(versions, id).Some?;
      }
    }
  }

  lemma WaitsStill(versions: map<PageId, Chain>, id: PageId, kept: Chain)
    requires id in versions && versions[id] != [] && kept != [] && kept[|kept| - 1] == versions[id][|versions[id]| - 1]
    ensures Waiting(versions[id := kept]) == Waiting(versions)
    ensures |kept| == 1 && kept[0].written ==> Waiting(versions - {id}) == Waiting(versions)
  {
    assert Waits(Some(kept)) == Waits(Some(versions[id]));
    if |kept| == 1 && kept[0].written {
      assert !Waits(Some(versions[id]));
      hide Waits;
      assert forall other <- versions - {id} :: other in versions && (versions - {id})[other] == versions[other];
    } else {
      hide Waits;
    }
  }
}
