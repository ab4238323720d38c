/** Readers, kept snapshots and write batches beside each other
    (`src/database.rs`): who holds which commit, what the writer is told of it,
    and the gate a batch that replaces the whole file takes. Each method is one
    step under its locks; threads interleave between steps. */
module Snapshots {
  import opened Values
  import opened Versions

  type Handle = nat

  /** A staged batch: its changed pages, or with `image` every page past the
      header; and how many pages there are after it. */
  datatype Batch = Batch(dirty: Pages, image: Option<Pages>, pageCount: nat)

  function After(now: Pages, batch: Batch): (pages: Pages) {
    (if batch.image.Some? then batch.image.value else now) + batch.dirty
  }

  /** Where the one writer stands in `transact` or `checkpoint`. */
  datatype Phase =
    | Idle
    | Staged(batch: Batch)
    | Gated(batch: Batch)
    | Ready(batch: Batch)
    | Logged(batch: Batch)
    | Announced(batch: Batch, live: seq<nat>)
    | WritingBack(target: Pages, left: set<PageId>, live: seq<nat>)
  {
    /** The gate is held alone: no read begins, nothing is pinned. */
    predicate Exclusive() {
      Gated? || ((Ready? || Logged? || Announced?) && batch.image.Some?)
    }

    /** `current` is locked. */
    predicate Locked() {
      Announced?
    }
  }

  /** A read that went to the file, and what it has read there. */
  datatype Reading = Reading(id: PageId, since: nat, got: Option<Option<Page>>)

  /** `Arc::strong_count` of a commit, but for `current` itself, is positive. */
  predicate Held(holders: map<Handle, nat>, k: nat) {
    k in holders.Values
  }

  /** The commits held and not ended, and the last. */
  ghost function Open(holders: map<Handle, nat>, endedBefore: nat, last: nat): (open: set<nat>) {
    Unended(holders.Values, endedBefore) + {last}
  }

  lemma SortedFront(past: seq<nat>, rest: seq<nat>)
    requires past != [] && forall k <- rest :: k in past[1..]
    requires Sorted(past[1..]) ==> Sorted(rest)
    ensures Sorted(past) ==> Sorted([past[0]] + rest) && Sorted(rest)
  {
    if Sorted(past) {
      assert forall i :: 0 <= i < |past[1..]| ==> past[1..][i] == past[i + 1];
      assert forall k <- rest :: past[0] <= k;
      var all := [past[0]] + rest;
      forall i, j | 0 <= i < j < |all| ensures all[i] <= all[j] {
        assert all[j] == rest[j - 1];
        if i == 0 { assert rest[j - 1] in rest; } else { assert all[i] == rest[i - 1]; }
      }
    }
  }

  lemma SortedBack(past: seq<nat>, k: nat)
    requires Sorted(past) && forall x <- past :: x <= k
    ensures Sorted(past + [k]) && forall x <- past + [k] :: x in past || x == k
  {
    assert forall i :: 0 <= i < |past| ==> past[i] in past;
  }

  function Retain(past: seq<nat>, holders: map<Handle, nat>): (held: seq<nat>)
    ensures forall k :: k in held <==> k in past && Held(holders, k)
    ensures Sorted(past) ==> Sorted(held)
  {
    if past == [] then []
    else
      var rest := Retain(past[1..], holders);
      assert past == [past[0]] + past[1..];
      SortedFront(past, rest);
      if Held(holders, past[0]) then [past[0]] + rest else rest
  }

  function NotEnded(past: seq<nat>, endedBefore: nat): (live: seq<nat>)
    ensures forall k :: k in live <==> k in past && k >= endedBefore
    ensures Sorted(past) ==> Sorted(live)
  {
    if past == [] then []
    else
      var rest := NotEnded(past[1..], endedBefore);
      assert past == [past[0]] + past[1..];
      SortedFront(past, rest);
      if past[0] >= endedBefore then [past[0]] + rest else rest
  }

  // ------------------------------------------------------------------ invariants

  /** Every replaced commit somebody holds is remembered. */
  ghost predicate PastOk(past: seq<nat>, holders: map<Handle, nat>, last: nat) {
    && Sorted(past)
    && (forall k <- past :: k <= last)
    && (forall k <- holders.Values :: k <= last && (k < last ==> k in past))
  }

  /** Every open snapshot but of the last commit is on the writer's list. */
  ghost predicate Listed(live: seq<nat>, holders: map<Handle, nat>, endedBefore: nat, last: nat) {
    && Sorted(live) && (forall k <- live :: k <= last)
    && (forall k <- holders.Values :: k >= endedBefore && k < last ==> k in live)
  }

  ghost predicate PhaseOk(
    phase: Phase, past: seq<nat>, holders: map<Handle, nat>, gated: set<Handle>, endedBefore: nat, last: nat)
  {
    && (phase.Exclusive() ==> gated == {})
    && (phase.Exclusive() && !phase.Gated? ==> forall k <- holders.Values :: k < endedBefore)
    && (!phase.Announced? ==> forall k <- past :: k < last)
    && (phase.Announced? || phase.WritingBack? ==> Listed(phase.live, holders, endedBefore, last))
    && (phase.Announced? && last in holders.Values ==> last in past && (last >= endedBefore ==> last in phase.live))
    && (phase.WritingBack? ==> forall k <- phase.live :: k < last)
  }

  /** A checkpoint's target is what the memory has for it, and what is not left
      to write is in the file. */
  ghost predicate WritesOk(phase: Phase, versions: map<PageId, Chain>, image: Option<Pages>, file: Pages) {
    phase.WritingBack? ==>
      && phase.target == Target(versions, image)
      && forall id <- phase.target :: id in phase.left || Get(file, id) == Some(phase.target[id])
  }

  /** A read in the file gets its commit's page there, as long as no checkpoint
      has begun since it looked. */
  ghost predicate ReadOk(
    r: Reading, k: nat, epoch: nat, image: Option<Pages>, file: Pages, states: seq<Pages>, phase: Phase)
  {
    && r.since <= epoch && k < |states| && r.id in states[k]
    && (r.since == epoch ==>
          && image.None? && r.id in states[|states| - 1]
          && (r.got.Some? ==> r.got.value == Get(file, r.id))
          && (phase.WritingBack? ==> r.id !in phase.target)
          && Get(file, r.id) == Some(states[k][r.id]))
  }

  ghost predicate ReadsOk(
    reading: map<Handle, Reading>, holders: map<Handle, nat>, epoch: nat, image: Option<Pages>, file: Pages,
    states: seq<Pages>, phase: Phase)
  {
    forall h <- reading :: h in holders && ReadOk(reading[h], holders[h], epoch, image, file, states, phase)
  }

  /** A batch has pages for exactly the ids below its page count, with those
      there are unless it replaces them; only such a batch makes fewer. */
  predicate BatchOk(batch: Batch, count: nat) {
    && (forall id <- batch.dirty :: id < batch.pageCount)
    && match batch.image {
         case None => count <= batch.pageCount && forall id | count <= id < batch.pageCount :: id in batch.dirty
         case Some(image) =>
           && (forall id <- image :: id < batch.pageCount)
           && forall id | 0 <= id < batch.pageCount :: id in image || id in batch.dirty
       }
  }

  /** What each commit left, by its page count. */
  ghost predicate CountsOk(states: seq<Pages>, counts: seq<nat>) {
    && |counts| == |states|
    && forall k, id: PageId :: 0 <= k < |states| ==> (id in states[k] <==> id < counts[k])
  }

  lemma CountsGrow(states: seq<Pages>, counts: seq<nat>, batch: Batch)
    requires states != [] && CountsOk(states, counts) && BatchOk(batch, counts[|counts| - 1])
    ensures CountsOk(states + [After(states[|states| - 1], batch)], counts + [batch.pageCount])
    ensures batch.image.None? ==> states[|states| - 1].Keys <= After(states[|states| - 1], batch).Keys
  {
    var now := states[|states| - 1];
    assert forall id: PageId :: id in now <==> id < counts[|counts| - 1];
    forall id: PageId ensures id in After(now, batch) <==> id < batch.pageCount {
    }
  }

  /** What a read was given, of which commit and page. */
  datatype Answer = Answer(commit: nat, id: PageId, found: Lookup)

  /** A page as its commit left it; or the commit was ended by the limit. */
  ghost predicate Right(a: Answer, states: seq<Pages>, endedBefore: nat) {
    && a.commit < |states| && a.id in states[a.commit]
    && (a.found.Found? ==> a.found.page == Some(states[a.commit][a.id]))
    && (a.found.TooOld? ==> a.commit < endedBefore)
  }

  // ------------------------------------------------------------- what steps do

  /** What a step can depend on and change: where the writer stands, the last
      commit, who holds which, the reads in the file, what each commit left and
      with how many pages, the first commit the limit has not ended, the
      checkpoints begun, and the file. */
  datatype Moment = Moment(
    phase: Phase, current: nat, holders: map<Handle, nat>, gated: set<Handle>, reading: map<Handle, Reading>,
    counts: seq<nat>, states: seq<Pages>, ended: nat, epoch: nat, file: Pages)

  predicate OfReader(step: Step) {
    || step.Pins? || step.Clones? || step.Releases? || step.LooksUp? || step.ReadsFile? || step.Takes?
    || step.Evicts?
  }

  predicate OfCheckpoint(step: Step) {
    step.BeginsCheckpoint? || step.WritesBack? || step.FailsCheckpoint? || step.EndsCheckpoint?
  }

  /** A reader's lookup: its commit's page, at once or after a look at the file;
      refused exactly if the limit has ended the commit. */
  ghost predicate LooksRight(s: Moment, h: Handle, id: PageId, t: Moment, found: Lookup)
    requires h in s.holders
  {
    var k := s.holders[h];
    && (found.TooOld? <==> k < s.ended)
    && (found.Found? ==> k < |s.states| && id in s.states[k] && found.page == Some(s.states[k][id]))
    && (found.InFile? ==> found.epoch == s.epoch)
    && t == s.(reading := if found.InFile? then s.reading[h := Reading(id, s.epoch, None)] else s.reading)
  }

  ghost predicate ReaderFollows(s: Moment, step: Step, t: Moment, answers: seq<Answer>)
    requires OfReader(step)
  {
    match step
    case Pins(h, gate) =>
      && answers == []
      && t == if h in s.holders || s.phase.Exclusive() || s.phase.Locked() then s
              else s.(holders := s.holders[h := s.current], gated := if gate then s.gated + {h} else s.gated)
    case Clones(h, kept) =>
      && answers == []
      && t == if h !in s.holders && kept in s.holders && s.holders[kept] >= s.ended
              then s.(holders := s.holders[h := s.holders[kept]]) else s
    case Releases(h) =>
      && answers == []
      && t == if h in s.holders
              then s.(holders := s.holders - {h}, gated := s.gated - {h}, reading := s.reading - {h}) else s
    case LooksUp(h, id) =>
      if h in s.holders && s.holders[h] < |s.counts| && id < s.counts[s.holders[h]] then
        && |answers| == 1 && answers[0].commit == s.holders[h] && answers[0].id == id
        && LooksRight(s, h, id, t, answers[0].found)
      else t == s && answers == []
    case ReadsFile(h) =>
      && answers == []
      && t == if h in s.reading
              then s.(reading := s.reading[h := s.reading[h].(got := Some(Get(s.file, s.reading[h].id)))]) else s
    case Takes(h) =>
      if h in s.holders && h in s.reading && s.reading[h].got.Some? then
        var (k, r) := (s.holders[h], s.reading[h]);
        && t == s.(reading := s.reading - {h})
        && (r.since == s.epoch ==> k < |s.states| && r.id in s.states[k])
        && answers == if r.since == s.epoch then [Answer(k, r.id, Found(Get(s.states[k], r.id)))] else []
      else t == s && answers == []
    case Evicts(_) => t == s && answers == []
  }

  /** A batch installed: its commit is the last, and no other has changed. */
  ghost predicate Installed(s: Moment, t: Moment) {
    && s.phase.Announced? && s.current < |s.states|
    && t == s.(phase := Idle, current := s.current + 1, counts := s.counts + [s.phase.batch.pageCount],
               states := s.states + [After(s.states[s.current], s.phase.batch)], ended := t.ended,
               epoch := if s.phase.batch.image.Some? then s.epoch + 1 else s.epoch)
    && s.ended <= t.ended
  }

  ghost predicate WriterFollows(s: Moment, step: Step, t: Moment)
    requires !OfReader(step) && !OfCheckpoint(step)
  {
    match step
    case Stages(batch) =>
      t == if s.phase.Idle? && s.current < |s.counts| && BatchOk(batch, s.counts[s.current])
           then s.(phase := Staged(batch)) else s
    case TakesGate =>
      if s.phase.Staged? && s.phase.batch.image.None? then t == s.(phase := Ready(s.phase.batch))
      else t == if s.phase.Staged? && s.gated == {} then s.(phase := Gated(s.phase.batch)) else s
    case ChecksAlone =>
      if s.phase.Gated? then
        t == s.(phase := if forall k <- s.holders.Values :: k < s.ended then Ready(s.phase.batch) else Idle)
      else t == s
    case Logs(logged) =>
      t == if s.phase.Ready? then s.(phase := if logged then Logged(s.phase.batch) else Idle) else s
    case Announces =>
      if s.phase.Logged? then
        && t.phase.Announced? && t == s.(phase := Announced(s.phase.batch, t.phase.live)) && Sorted(t.phase.live)
        && forall k :: k in t.phase.live <==> k in s.holders.Values && k >= s.ended
      else t == s
    case Installs => if s.phase.Announced? then Installed(s, t) else t == s
  }

  ghost predicate CheckpointFollows(s: Moment, step: Step, t: Moment)
    requires OfCheckpoint(step)
  {
    match step
    case BeginsCheckpoint =>
      if s.phase.Idle? then
        && t.phase.WritingBack? && t == s.(phase := t.phase, epoch := s.epoch + 1)
        && t.phase.left == t.phase.target.Keys && Sorted(t.phase.live)
        && forall k :: k in t.phase.live <==> k in s.holders.Values && s.ended <= k < s.current
      else t == s
    case WritesBack(id, torn) =>
      t == if s.phase.WritingBack? && id in s.phase.target
           then s.(phase := s.phase.(left := if torn.Some? then s.phase.left + {id} else s.phase.left - {id}),
                   file := s.file[id := if torn.Some? then torn.value else s.phase.target[id]])
           else s
    case FailsCheckpoint => t == if s.phase.WritingBack? then s.(phase := Idle) else s
    case EndsCheckpoint =>
      if s.phase.WritingBack? && s.phase.left == {} then
        && t == s.(phase := Idle, file := t.file) && s.current < |s.states|
        && forall id <- s.states[s.current] :: Get(t.file, id) == Some(s.states[s.current][id])
      else t == s
  }

  ghost predicate Follows(s: Moment, step: Step, t: Moment, answers: seq<Answer>) {
    if OfReader(step) then ReaderFollows(s, step, t, answers)
    else answers == [] && if OfCheckpoint(step) then CheckpointFollows(s, step, t) else WriterFollows(s, step, t)
  }

  class Database {
    const memory: Memory
    /** The commit new reads get. */
    var current: nat
    var holders: map<Handle, nat>
    /** The holders that are reads under way, each holding the gate. */
    var gated: set<Handle>
    var past: seq<nat>
    var phase: Phase
    var reading: map<Handle, Reading>
    /** How many pages each commit has. */
    var counts: seq<nat>
    /** What each commit left. */
    ghost var states: seq<Pages>

    ghost predicate Valid()
      reads this, memory
    {
      && current == memory.commit
      && memory.Holds(states, Open(holders, memory.endedBefore, current))
      && PastOk(past, holders, current)
      && gated <= holders.Keys
      && PhaseOk(phase, past, holders, gated, memory.endedBefore, current)
      && WritesOk(phase, memory.versions, memory.image, memory.file)
      && ReadsOk(reading, holders, memory.epoch, memory.image, memory.file, states, phase)
      && |states| == current + 1
      && CountsOk(states, counts)
      && (phase.Staged? || phase.Gated? || phase.Ready? || phase.Logged? || phase.Announced? ==>
            BatchOk(phase.batch, counts[current]))
    }

    constructor (pages: Pages, count: nat, versionLimit: nat)
      requires forall id: PageId :: id in pages <==> id < count
      ensures Valid() && fresh(memory) && memory.limit == versionLimit
      ensures S() == Moment(Idle, 0, map[], {}, map[], [count], [pages], 0, 0, pages)
    {
      memory := new Memory(pages, versionLimit);
      current, holders, gated, past, phase, reading := 0, map[], {}, [], Idle, map[];
      counts, states := [count], [pages];
      new;
      assert Open(holders, memory.endedBefore, current) == {0} by {
        assert holders.Values == {};
      }
      hide Memory.Holds;
    }

    /** `pin`, or with `gate` the beginning of a `read`: the last commit is held.
        It waits while the gate is held alone or `current` is locked. */
    method Pin(h: Handle, gate: bool) returns (pinned: bool)
      requires Valid() && h !in holders
      modifies this`holders, this`gated
      ensures Valid() && pinned == !(phase.Exclusive() || phase.Locked())
      ensures holders == if pinned then old(holders)[h := current] else old(holders)
      ensures gated == if pinned && gate then old(gated) + {h} else old(gated)
    {
      hide Memory.Holds, CountsOk, WritesOk;
      if phase.Exclusive() || phase.Locked() {
        return false;
      }
      PutValue(holders, h, current);
      assert Open(holders[h := current], memory.endedBefore, current) == Open(holders, memory.endedBefore, current);
      holders := holders[h := current];
      gated := if gate then gated + {h} else gated;
      pinned := true;
    }

    /** A kept commit held once more; refused if the limit has ended it. */
    method Clone(h: Handle, kept: Handle) returns (cloned: bool)
      requires Valid() && h !in holders && kept in holders
      modifies this`holders
      ensures Valid() && cloned == (old(holders)[kept] >= memory.endedBefore)
      ensures holders == if cloned then old(holders)[h := old(holders)[kept]] else old(holders)
    {
      hide Memory.Holds, CountsOk, WritesOk;
      if holders[kept] < memory.endedBefore {
        return false;
      }
      PutValue(holders, h, holders[kept]);
      assert holders[h := holders[kept]].Values == holders.Values;
      holders := holders[h := holders[kept]];
      cloned := true;
    }

    method Release(h: Handle)
      requires Valid() && h in holders
      modifies this`holders, this`gated, this`reading
      ensures Valid() && holders == old(holders) - {h} && gated == old(gated) - {h} && reading == old(reading) - {h}
    {
      hide WritesOk, Memory.Holds, CountsOk, Sorted;
      assert forall k <- (holders - {h}).Values :: k in holders.Values;
      memory.FewerHold(states, Open(holders, memory.endedBefore, current),
                       Open(holders - {h}, memory.endedBefore, current));
      hide Open;
      holders := holders - {h};
      gated := gated - {h};
      reading := reading - {h};
    }

    // ------------------------------------------------------------ reading pages

    /** A reader looks up a page of its commit; one that must go to the file is
        remembered. */
    method LookUp(h: Handle, id: PageId) returns (found: Lookup)
      requires Valid() && h in holders && holders[h] < |counts| && id < counts[holders[h]]
      modifies this`reading
      ensures Valid() && Right(Answer(holders[h], id, found), states, memory.endedBefore)
      ensures (found.TooOld? <==> holders[h] < memory.endedBefore) && (found.InFile? ==> found.epoch == memory.epoch)
      ensures reading == if found.InFile? then old(reading)[h := Reading(id, found.epoch, None)] else old(reading)
    {
      hide AllKept, Older, WritesOk;
      ghost var open := Open(holders, memory.endedBefore, current);
      var k := holders[h];
      assert k in holders.Values;
      found := memory.LookUp(id, k, states, open);
      hide Memory.Holds;
      if found.InFile? {
        TargetOf(memory.versions, memory.image, id);
        NotWritten(phase, memory.versions, memory.image, memory.file, id);
        reading := reading[h := Reading(id, found.epoch, None)];
      }
    }

    method ReadFile(h: Handle)
      requires Valid() && h in reading
      modifies this`reading
      ensures Valid()
      ensures reading == old(reading)[h := old(reading)[h].(got := Some(Get(memory.file, old(reading)[h].id)))]
    {
      hide Memory.Holds, CountsOk, WritesOk;
      reading := reading[h := reading[h].(got := Some(Get(memory.file, reading[h].id)))];
    }

    /** What was read from the file is taken, and cached; or the reader is to
        look again, as a checkpoint has begun since. */
    method Take(h: Handle) returns (found: Option<Lookup>)
      requires Valid() && h in reading && reading[h].got.Some?
      modifies this`reading, memory`cache
      ensures Valid() && reading == old(reading) - {h}
      ensures found.Some? ==> Right(Answer(holders[h], old(reading)[h].id, found.value), states, memory.endedBefore)
      ensures found.Some? == (old(reading)[h].since == memory.epoch)
      ensures found.Some? ==> found.value == Found(Some(states[holders[h]][old(reading)[h].id]))
    {
      hide Memory.Holds, CountsOk, WritesOk, PhaseOk, PastOk, Open;
      var r := reading[h];
      assert ReadOk(r, holders[h], memory.epoch, memory.image, memory.file, states, phase);
      found := memory.Take(r.id, r.got.value, r.since, states, Open(holders, memory.endedBefore, current));
      reading := reading - {h};
    }

    method Evict(id: PageId)
      requires Valid()
      modifies memory`cache
      ensures Valid()
    {
      hide Memory.Holds, CountsOk, WritesOk, PhaseOk, PastOk, Open, ReadsOk;
      memory.Evict(id, states, Open(holders, memory.endedBefore, current));
    }

    // ----------------------------------------------------------------- the writer

    method Stage(batch: Batch)
      requires Valid() && phase.Idle? && current < |counts| && BatchOk(batch, counts[current])
      modifies this`phase
      ensures Valid() && phase == Staged(batch)
    {
      hide Memory.Holds, CountsOk, PastOk, Open, BatchOk;
      phase := Staged(batch);
    }

    /** The gate taken for a batch that replaces the whole file, once no read is
        under way; any other goes on without. */
    method TakeGate() returns (taken: bool)
      requires Valid() && phase.Staged?
      modifies this`phase
      ensures Valid() && taken == (old(phase).batch.image.None? || gated == {})
      ensures phase == if !taken then old(phase) else if old(phase).batch.image.Some? then Gated(old(phase).batch) else Ready(old(phase).batch)
    {
      hide Memory.Holds, CountsOk, PastOk, Open, BatchOk;
      if phase.batch.image.None? {
        phase := Ready(phase.batch);
        return true;
      }
      taken := gated == {};
      if taken {
        phase := Gated(phase.batch);
      }
    }

    /** `live`: the replaced commits somebody still holds and the limit has not
        ended. */
    method Live() returns (live: seq<nat>)
      requires Valid()
      modifies this`past
      ensures Valid() && Sorted(live)
      ensures past == Retain(old(past), holders)
      ensures forall k :: k in live <==> k in old(past) && Held(holders, k) && k >= memory.endedBefore
    {
      hide Memory.Holds, CountsOk, Open, BatchOk, WritesOk, ReadsOk;
      past := Retain(past, holders);
      live := NotEnded(past, memory.endedBefore);
    }

    /** Alone: nobody keeps a commit, last or replaced; else the batch is refused
        and the gate opens. */
    method CheckAlone() returns (alone: bool)
      requires Valid() && phase.Gated?
      modifies this`phase, this`past
      ensures Valid() && phase == if alone then Ready(old(phase).batch) else Idle
      ensures alone <==> forall k <- holders.Values :: k < memory.endedBefore
    {
      hide AllKept, Older, Grows, Open, BatchOk;
      var live := Live();
      alone := !Held(holders, current) && live == [];
      assert live == [] || live[0] in live;
      hide Memory.Holds;
      phase := if alone then Ready(phase.batch) else Idle;
    }

    /** The batch logged; or not, and rolled back. */
    method Log(logged: bool)
      requires Valid() && phase.Ready?
      modifies this`phase
      ensures Valid() && phase == if logged then Logged(old(phase).batch) else Idle
    {
      hide Memory.Holds, CountsOk, PastOk, Open, BatchOk;
      phase := if logged then Logged(phase.batch) else Idle;
    }

    /** `current` is locked, the commit about to be replaced joins `past` if held,
        and the list of open snapshots is made: exactly those somebody holds and
        the limit has not ended. */
    method Announce()
      requires Valid() && phase.Logged?
      modifies this`phase, this`past
      ensures Valid() && phase.Announced? && phase.batch == old(phase).batch && Sorted(phase.live)
      ensures forall k :: k in phase.live <==> k in holders.Values && k >= memory.endedBefore
    {
      hide Memory.Holds, CountsOk, Open, BatchOk, ReadsOk, PhaseOk, PastOk, Sorted;
      var batch := phase.batch;
      AnnounceLists(phase, past, holders, gated, memory.endedBefore, current);
      if Held(holders, current) {
        past := past + [current];
      }
      past := Retain(past, holders);
      var live := NotEnded(past, memory.endedBefore);
      ReadsGoOn(reading, holders, memory.epoch, memory.image, memory.file, states, phase, states, Announced(batch, live));
      phase := Announced(batch, live);
    }

    /** `commit_beside`, and the new commit becomes `current`. */
    method Install()
      requires Valid() && phase.Announced?
      modifies this`phase, this`current, this`counts, this`states, memory
      ensures Valid()
      ensures Installed(old(S()), S()) && memory.older <= memory.limit
    {
      hide *;
      if phase.batch.image.Some? {
        InstallImage();
      } else {
        InstallPages();
      }
    }

    method InstallPages()
      requires Valid() && phase.Announced? && phase.batch.image.None?
      modifies this`phase, this`current, this`counts, this`states, memory
      ensures Valid()
      ensures Installed(old(S()), S()) && memory.older <= memory.limit
    {
      hide Memory.Holds, PastOk, PhaseOk, ReadsOk, Sorted;
      assert |counts| == current + 1;
      var batch, live := phase.batch, phase.live;
      ghost var open := Unended(holders.Values, memory.endedBefore);
      memory.FewerHold(states, Open(holders, memory.endedBefore, current), open);
      AnnouncedAll(phase, past, holders, gated, memory.endedBefore, current);
      CountsGrow(states, counts, batch);
      hide CountsOk, BatchOk;
      var before := memory.AsFound(batch.dirty, states, open);
      memory.Commit(batch.dirty, before, live, states, open);
      assert Unended(open, memory.endedBefore) == Unended(holders.Values, memory.endedBefore);
      hide Unended;
      PastGrows(phase, past, holders, gated, old(memory.endedBefore), memory.endedBefore, current);
      ReadsGoOn(reading, holders, memory.epoch, memory.image, memory.file, states, phase,
                states + [After(states[current], batch)], Idle);
      states := states + [After(states[current], batch)];
      current, counts, phase := current + 1, counts + [batch.pageCount], Idle;
    }

    method InstallImage()
      requires Valid() && phase.Announced? && phase.batch.image.Some?
      modifies this`phase, this`current, this`counts, this`states, memory
      ensures Valid()
      ensures Installed(old(S()), S()) && memory.older <= memory.limit
    {
      hide Memory.Holds, PastOk, PhaseOk, ReadsOk, Sorted;
      assert |counts| == current + 1;
      var batch := phase.batch;
      memory.FewerHold(states, Open(holders, memory.endedBefore, current), {});
      AnnouncedAll(phase, past, holders, gated, memory.endedBefore, current);
      CountsGrow(states, counts, batch);
      hide CountsOk, BatchOk;
      PastGrows(phase, past, holders, gated, memory.endedBefore, memory.endedBefore, current);
      memory.CommitReplacing(batch.dirty, batch.image.value, states);
      ReadsLookAgain(reading, holders, old(memory.epoch), old(memory.image), old(memory.file), states, phase,
                     memory.epoch, memory.image, memory.file, states + [After(states[current], batch)], Idle);
      assert Open(holders, memory.endedBefore, current + 1) == {current + 1};
      hide Unended, Open;
      states := states + [After(states[current], batch)];
      current, counts, phase := current + 1, counts + [batch.pageCount], Idle;
    }

    // ------------------------------------------------------------------ checkpoint

    method BeginCheckpoint()
      requires Valid() && phase.Idle?
      modifies this`phase, this`past, memory`epoch
      ensures Valid() && phase.WritingBack? && phase.left == phase.target.Keys && memory.epoch == old(memory.epoch) + 1
      ensures Sorted(phase.live)
      ensures forall k :: k in phase.live <==> k in holders.Values && memory.endedBefore <= k < current
    {
      hide Memory.Holds, CountsOk, ReadsOk, Open, BatchOk, Sorted;
      var live := Live();
      var target := Target(memory.versions, memory.image);
      ReadsLookAgain(reading, holders, memory.epoch, memory.image, memory.file, states, phase,
                     memory.epoch + 1, memory.image, memory.file, states, WritingBack(target, target.Keys, live));
      target := memory.BeginCheckpoint(states, Open(holders, memory.endedBefore, current));
      hide Target;
      phase := WritingBack(target, target.Keys, live);
    }

    /** A page of the checkpoint written to the file, or `torn`: half written. */
    method WriteBack(id: PageId, torn: Option<Page>)
      requires Valid() && phase.WritingBack? && id in phase.target
      modifies this`phase, memory`file
      ensures Valid() && phase == old(phase).(left := if torn.Some? then old(phase).left + {id} else old(phase).left - {id})
      ensures memory.file == old(memory.file)[id := if torn.Some? then torn.value else old(phase).target[id]]
    {
      hide Memory.Holds, CountsOk, Open, PastOk, Target;
      memory.WriteFile(id, if torn.Some? then torn.value else phase.target[id], states,
                       Open(holders, memory.endedBefore, current));
      phase := phase.(left := if torn.Some? then phase.left + {id} else phase.left - {id});
    }

    /** A checkpoint given up part way: the file is half written, and read only
        where it is not. */
    method FailCheckpoint()
      requires Valid() && phase.WritingBack?
      modifies this`phase
      ensures Valid() && phase.Idle?
    {
      hide Memory.Holds, CountsOk, Open, PastOk, Target;
      phase := Idle;
    }

    method EndCheckpoint()
      requires Valid() && phase.WritingBack? && phase.left == {}
      modifies this`phase, memory`file, memory`cache, memory`versions, memory`image, memory`older
      ensures Valid() && phase.Idle? && memory.image.None? && current < |states|
      ensures forall id <- states[current] :: Get(memory.file, id) == Some(states[current][id])
    {
      hide Memory.Holds, Target;
      ghost var open := Open(holders, memory.endedBefore, current);
      memory.EndCheckpoint(counts[current], phase.live, states, open);
      phase := Idle;
    }

    ghost function S(): (s: Moment)
      reads this, memory
    {
      Moment(phase, current, holders, gated, reading, counts, states, memory.endedBefore, memory.epoch, memory.file)
    }

    /** One step, if it can be taken now; what a read was given. */
    method Do(step: Step) returns (answers: seq<Answer>)
      requires Valid()
      modifies this, memory
      ensures Valid() && Follows(old(S()), step, S(), answers) && Guarded(S())
    {
      hide Valid, PhaseOk, Memory.Holds, ReaderFollows, WriterFollows, CheckpointFollows, Guarded, S;
      if OfReader(step) {
        answers := DoReader(step);
      } else if OfCheckpoint(step) {
        DoCheckpoint(step);
        answers := [];
      } else {
        DoWriter(step);
        answers := [];
      }
      IsGuarded(this);
    }

    method DoReader(step: Step) returns (answers: seq<Answer>)
      requires Valid() && OfReader(step)
      modifies this`holders, this`gated, this`reading, memory`cache
      ensures Valid() && ReaderFollows(old(S()), step, S(), answers)
    {
      hide Valid, PhaseOk, Memory.Holds;
      answers := [];
      match step {
        case Pins(h, gate) => if h !in holders { var _ := Pin(h, gate); }
        case Clones(h, kept) => if h !in holders && kept in holders { var _ := Clone(h, kept); }
        case Releases(h) => if h in holders { Release(h); }
        case LooksUp(h, id) =>
          if h in holders && holders[h] < |counts| && id < counts[holders[h]] {
            var found := LookUp(h, id);
            answers := [Answer(holders[h], id, found)];
          }
        case ReadsFile(h) => if h in reading { ReadFile(h); }
        case Takes(h) =>
          if h in holders && h in reading && reading[h].got.Some? {
            var id := reading[h].id;
            var found := Take(h);
            if found.Some? { answers := [Answer(holders[h], id, found.value)]; }
          }
        case Evicts(id) => Evict(id);
      }
    }

    method DoWriter(step: Step)
      requires Valid() && !OfReader(step) && !OfCheckpoint(step)
      modifies this, memory
      ensures Valid() && WriterFollows(old(S()), step, S())
    {
      hide Valid, PhaseOk, Memory.Holds, BatchOk, Installed;
      match step {
        case Stages(batch) => if phase.Idle? && current < |counts| && BatchOk(batch, counts[current]) { Stage(batch); }
        case TakesGate => if phase.Staged? { var _ := TakeGate(); }
        case ChecksAlone => if phase.Gated? { var _ := CheckAlone(); }
        case Logs(logged) => if phase.Ready? { Log(logged); }
        case Announces => if phase.Logged? { Announce(); }
        case Installs => if phase.Announced? { Install(); }
      }
    }

    method DoCheckpoint(step: Step)
      requires Valid() && OfCheckpoint(step)
      modifies this`phase, this`past, memory`epoch, memory`file, memory`cache, memory`versions, memory`image, memory`older
      ensures Valid() && CheckpointFollows(old(S()), step, S())
    {
      hide Valid, PhaseOk, Memory.Holds;
      match step {
        case BeginsCheckpoint => if phase.Idle? { BeginCheckpoint(); }
        case WritesBack(id, torn) => if phase.WritingBack? && id in phase.target { WriteBack(id, torn); }
        case FailsCheckpoint => if phase.WritingBack? { FailCheckpoint(); }
        case EndsCheckpoint => if phase.WritingBack? && phase.left == {} { EndCheckpoint(); }
      }
    }
  }

  /** A replaced commit somebody holds and the limit has not ended is on the list
      given to `commit_beside`; and a batch that replaces the whole file is
      published only when no read is under way and there is no such commit. */
  ghost predicate Guarded(s: Moment) {
    s.phase.Announced? ==>
      && (forall k <- s.holders.Values :: k >= s.ended ==> k in s.phase.live)
      && (s.phase.batch.image.Some? ==> s.gated == {} && forall k <- s.holders.Values :: k < s.ended)
  }

  lemma IsGuarded(db: Database)
    requires db.Valid()
    ensures Guarded(db.S())
  {
    hide Memory.Holds, WritesOk, ReadsOk, CountsOk, BatchOk, Sorted;
  }

  lemma NotWritten(
    phase: Phase, versions: map<PageId, Chain>, image: Option<Pages>, file: Pages, id: PageId)
    requires WritesOk(phase, versions, image, file) && id !in Target(versions, image)
    ensures phase.WritingBack? ==> id !in phase.target
  {
  }

  /** A commit changes neither the file nor what earlier commits left. */
  lemma ReadsGoOn(
    reading: map<Handle, Reading>, holders: map<Handle, nat>, epoch: nat, image: Option<Pages>, file: Pages,
    states: seq<Pages>, phase: Phase, more: seq<Pages>, next: Phase)
    requires states != [] && ReadsOk(reading, holders, epoch, image, file, states, phase)
    requires |states| <= |more| && more[..|states|] == states && !next.WritingBack?
    requires states[|states| - 1].Keys <= more[|more| - 1].Keys
    ensures ReadsOk(reading, holders, epoch, image, file, more, next)
  {
    forall k | 0 <= k < |states| ensures more[k] == states[k] {
      assert more[..|states|][k] == states[k];
    }
  }

  /** After the epoch has moved no read in the file relies on it. */
  lemma ReadsLookAgain(
    reading: map<Handle, Reading>, holders: map<Handle, nat>, epoch: nat, image: Option<Pages>, file: Pages,
    states: seq<Pages>, phase: Phase,
    later: nat, image': Option<Pages>, file': Pages, more: seq<Pages>, next: Phase)
    requires ReadsOk(reading, holders, epoch, image, file, states, phase)
    requires |states| <= |more| && more[..|states|] == states && epoch < later
    ensures ReadsOk(reading, holders, later, image', file', more, next)
  {
    forall k | 0 <= k < |states| ensures more[k] == states[k] {
      assert more[..|states|][k] == states[k];
    }
  }

  lemma AnnounceLists(
    phase: Phase, past: seq<nat>, holders: map<Handle, nat>, gated: set<Handle>, endedBefore: nat, last: nat)
    requires PastOk(past, holders, last) && phase.Logged?
    requires PhaseOk(phase, past, holders, gated, endedBefore, last)
    ensures var grown := Retain(if Held(holders, last) then past + [last] else past, holders);
            var live := NotEnded(grown, endedBefore);
            && PastOk(grown, holders, last)
            && PhaseOk(Announced(phase.batch, live), grown, holders, gated, endedBefore, last)
            && Sorted(live) && forall k :: k in live <==> k in holders.Values && k >= endedBefore
  {
    SortedBack(past, last);
    hide Sorted;
  }

  /** Once the last commit is replaced, it is on the list of the past if held. */
  lemma PastGrows(
    phase: Phase, past: seq<nat>, holders: map<Handle, nat>, gated: set<Handle>, endedBefore: nat, later: nat,
    last: nat)
    requires PastOk(past, holders, last) && phase.Announced?
    requires PhaseOk(phase, past, holders, gated, endedBefore, last)
    ensures PastOk(past, holders, last + 1) && PhaseOk(Idle, past, holders, gated, later, last + 1)
  {
    hide Sorted;
  }

  /** The list made for a commit has every snapshot it must keep. */
  lemma AnnouncedAll(
    phase: Phase, past: seq<nat>, holders: map<Handle, nat>, gated: set<Handle>, endedBefore: nat, last: nat)
    requires PastOk(past, holders, last) && phase.Announced?
    requires PhaseOk(phase, past, holders, gated, endedBefore, last)
    ensures Sorted(phase.live) && forall k <- phase.live :: k <= last
    ensures forall k <- Unended(holders.Values, endedBefore) :: k in phase.live && k >= endedBefore
    ensures phase.batch.image.Some? ==> Unended(holders.Values, endedBefore) == {}
  {
    hide Sorted;
  }

  lemma PutValue(holders: map<Handle, nat>, h: Handle, k: nat)
    requires h !in holders
    ensures holders[h := k].Values == holders.Values + {k}
  {
    var put := holders[h := k];
    assert put[h] == k;
    forall v | v in holders.Values ensures v in put.Values {
      var g :| g in holders && holders[g] == v;
      assert put[g] == v;
    }
  }

  // ------------------------------------------------------------ every interleaving

  datatype Step =
    | Pins(h: Handle, gate: bool)
    | Clones(h: Handle, kept: Handle)
    | Releases(h: Handle)
    | LooksUp(h: Handle, id: PageId)
    | ReadsFile(h: Handle)
    | Takes(h: Handle)
    | Evicts(id: PageId)
    | Stages(batch: Batch)
    | TakesGate
    | ChecksAlone
    | Logs(logged: bool)
    | Announces
    | Installs
    | BeginsCheckpoint
    | WritesBack(id: PageId, torn: Option<Page>)
    | FailsCheckpoint
    | EndsCheckpoint

  /** What was seen before each step and after it, and what each answered. */
  ghost predicate Ran(steps: seq<Step>, answers: seq<seq<Answer>>, seen: seq<Moment>) {
    && |answers| == |steps| && |seen| == |steps| + 1
    && (forall i :: 0 <= i < |steps| ==> Follows(seen[i], steps[i], seen[i + 1], answers[i]))
    && (forall i :: 0 <= i <= |steps| ==> Guarded(seen[i]))
  }

  lemma RanOneMore(
    steps: seq<Step>, answers: seq<seq<Answer>>, seen: seq<Moment>, step: Step, more: seq<Answer>, next: Moment)
    requires Ran(steps, answers, seen) && Follows(seen[|steps|], step, next, more) && Guarded(next)
    ensures Ran(steps + [step], answers + [more], seen + [next])
  {
    hide Follows, Guarded;
  }

  lemma NothingRan(s: Moment)
    requires Guarded(s)
    ensures Ran([], [], [s])
  {
    hide Guarded;
  }

  /** Every interleaving of readers, kept snapshots, batches and checkpoints: each step
      does what it is to, so each read gets its page as the commit it reads left it, or
      is refused because the limit has ended that commit; and no batch is published
      over a commit it would take from somebody. */
  method Run(pages: Pages, count: nat, versionLimit: nat, steps: seq<Step>)
    returns (db: Database, answers: seq<seq<Answer>>, ghost seen: seq<Moment>)
    requires forall id: PageId :: id in pages <==> id < count
    ensures fresh(db) && fresh(db.memory) && db.Valid() && Ran(steps, answers, seen)
    ensures seen[0] == Moment(Idle, 0, map[], {}, map[], [count], [pages], 0, 0, pages) && seen[|steps|] == db.S()
  {
    db := new Database(pages, count, versionLimit);
    answers, seen := [], [db.S()];
    IsGuarded(db);
    NothingRan(db.S());
    assert steps[..0] == [];
    for i := 0 to |steps|
      invariant fresh(db) && fresh(db.memory) && db.Valid()
      invariant |answers| == i && |seen| == i + 1 && seen[i] == db.S() && Ran(steps[..i], answers, seen)
      invariant seen[0] == Moment(Idle, 0, map[], {}, map[], [count], [pages], 0, 0, pages)
    {
      hide Database.Valid, Follows, Guarded, Database.S, Ran;
      var more := db.Do(steps[i]);
      RanOneMore(steps[..i], answers, seen, steps[i], more, db.S());
      assert steps[..i + 1] == steps[..i] + [steps[i]];
      answers, seen := answers + [more], seen + [db.S()];
    }
    assert steps[..|steps|] == steps;
  }

  lemma StepGoesOn(s: Moment, step: Step, t: Moment, answers: seq<Answer>, h: Handle)
    requires Follows(s, step, t, answers)
    ensures s.states <= t.states && s.ended <= t.ended
    ensures h in s.holders && h in t.holders ==> t.holders[h] == s.holders[h]
  {
    hide LooksRight;
    if step.LooksUp? && t != s { OnlyReads(s, step.h, step.id, t, answers); }
  }

  lemma OnlyReads(s: Moment, h: Handle, id: PageId, t: Moment, answers: seq<Answer>)
    requires ReaderFollows(s, LooksUp(h, id), t, answers)
    ensures t == s.(reading := t.reading)
  {
  }

  /** A snapshot is one commit for as long as it is held, and what that commit
      left never changes: so all it is answered is of one state. */
  lemma {:induction false} OneSnapshot(
    steps: seq<Step>, answers: seq<seq<Answer>>, seen: seq<Moment>, i: nat, j: nat, h: Handle)
    requires Ran(steps, answers, seen) && i <= j <= |steps|
    requires forall m :: i <= m <= j ==> h in seen[m].holders
    ensures h in seen[i].holders && h in seen[j].holders && seen[j].holders[h] == seen[i].holders[h]
    ensures seen[i].states <= seen[j].states && seen[i].ended <= seen[j].ended
    decreases j
  {
    if i < j {
      hide Follows, Guarded;
      assert Follows(seen[j - 1], steps[j - 1], seen[j - 1 + 1], answers[j - 1]);
      OneSnapshot(steps, answers, seen, i, j - 1, h);
      StepGoesOn(seen[j - 1], steps[j - 1], seen[j], answers[j - 1], h);
    }
  }

  // ----------------------------------------- beside a snapshot the limit has ended

  /** A page an open snapshot sees otherwise than the last commit left it takes a
      version kept for it. */
  lemma ChangedIsKept(memory: Memory, states: seq<Pages>, open: set<nat>, k: nat, id: PageId)
    requires memory.Holds(states, open) && k in open && k < |states| && id in states[k]
    requires id in states[|states| - 1] && states[|states| - 1][id] != states[k][id]
    ensures memory.older >= 1
  {
    var versions, now := memory.versions, states[|states| - 1];
    assert forall other <- versions :: versions[other] != [] by {
      forall other | other in versions ensures versions[other] != [] {
        assert Kept(Get(versions, other), memory.Under().Page(other), other, states, open);
      }
    }
    assert Kept(Get(versions, id), memory.Under().Page(id), id, states, open);
    if |versions[id]| == 1 { OneVersion(versions[id], k); }
    OlderWithout(versions, id);
    assert forall other <- versions - {id} :: (versions - {id})[other] != [];
    OlderIsCount(versions - {id});
  }

  lemma {:induction false} OlderIsCount(versions: map<PageId, Chain>)
    requires forall id <- versions :: versions[id] != []
    ensures Older(versions) >= 0
    decreases versions
  {
    if id :| id in versions {
      OlderWithout(versions, id);
      assert forall other <- versions - {id} :: (versions - {id})[other] != [];
      OlderIsCount(versions - {id});
    }
  }

  /** A batch that replaces the whole file can go ahead beside a kept snapshot,
      once the limit has ended that: somebody pins the first commit, a batch
      changes a page of it with no version to be kept, and a replacing batch then
      finds itself alone. */
  method AloneBesideKept(before: Page, after: Page) returns (db: Database, alone: bool)
    requires before != after
    ensures fresh(db) && fresh(db.memory) && db.Valid() && alone
    ensures db.phase.Ready? && db.phase.batch.image.Some?
    ensures db.holders == map[0 := 0] && db.current == 1 && db.memory.endedBefore == 1
  {
    hide Database.Valid;
    db := PinThenChange(before, after);
    assert db.holders.Values == {0} by {
      assert db.holders[0] == 0;
    }
    db.Stage(Batch(map[0 := after], Some(map[]), 1));
    var taken := db.TakeGate();
    alone := db.CheckAlone();
  }

  method PinThenChange(before: Page, after: Page) returns (db: Database)
    requires before != after
    ensures fresh(db) && fresh(db.memory) && db.Valid() && db.phase.Idle? && db.counts == [1, 1] && db.gated == {}
    ensures db.holders == map[0 := 0] && db.current == 1 && db.memory.endedBefore == 1
  {
    hide Database.Valid, Memory.Holds;
    var pages: Pages := map[0 := before];
    db := new Database(pages, 1, 0);
    var pinned := db.Pin(0, false);
    var batch := Batch(map[0 := after], None, 1);
    db.Stage(batch);
    var taken := db.TakeGate();
    db.Log(true);
    db.Announce();
    db.Install();
    assert After(pages, batch) == map[0 := after];
    assert db.states == [pages, map[0 := after]];
    LimitHasEnded(db, before, after);
  }

  lemma LimitHasEnded(db: Database, before: Page, after: Page)
    requires db.Valid() && db.current == 1 && db.holders == map[0 := 0] && before != after
    requires db.states == [map[0 := before], map[0 := after]] && db.memory.older <= 0
    ensures db.memory.endedBefore == 1
  {
    assert db.holders[0] == 0;
    if db.memory.endedBefore == 0 {
      hide Memory.Holds, PastOk, PhaseOk, ReadsOk, WritesOk, CountsOk;
      ChangedIsKept(db.memory, db.states, Open(db.holders, 0, 1), 0, 0);
    }
  }
}
