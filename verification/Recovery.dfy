/** Commit, crash and recovery (`src/database.rs`, over the write-ahead log and
    the page file): a step machine in which any step may be the last before a
    crash. A page written and not flushed may hold anything after one. */
module Recovery {
  import opened Values

  type PageId = nat

  /** A page image. The header, page 0, says how many pages there are. */
  datatype Page = Header(count: nat, rest: seq<byte>) | Body(bytes: seq<byte>)

  type Pages = map<PageId, Page>

  function Count(pages: Pages): (n: nat) {
    if 0 in pages && pages[0].Header? then pages[0].count else 0
  }

  /** The pages that count: those past the header's count are never read. */
  function View(pages: Pages): (view: Pages) {
    map id | id in pages && id < Count(pages) :: pages[id]
  }

  /** A database: a header, and every page it counts. */
  ghost predicate Whole(pages: Pages) {
    Count(pages) > 0 && forall id :: id in pages <==> id < Count(pages)
  }

  /** A batch is the images of the pages it changes, the header among them if
      it changed; one that replaces the whole file has every page. */
  type Batch = Pages

  /** What a batch may be: it leaves a database, so it holds every page it adds,
      and none past the end. */
  ghost predicate Fits(pages: Pages, batch: Batch) {
    var after := pages + batch;
    && Count(after) > 0
    && (forall id :: id in batch ==> id < Count(after))
    && (forall id :: id < Count(after) ==> id in after)
  }

  function Apply(pages: Pages, batch: Batch): (after: Pages) {
    View(pages + batch)
  }

  lemma ApplyIsWhole(pages: Pages, batch: Batch)
    requires Whole(pages) && Fits(pages, batch)
    ensures Whole(Apply(pages, batch))
  {
    var after := pages + batch;
    assert 0 in after;
    assert Count(View(after)) == Count(after);
  }

  // -------------------------------------------------------------- what recovers

  /** The log's images laid over the file, in the order logged. */
  function Overlay(file: Pages, wal: seq<Batch>): (pages: Pages) {
    if wal == [] then file else Overlay(file, wal[..|wal| - 1]) + wal[|wal| - 1]
  }

  ghost predicate Logged(wal: seq<Batch>, id: PageId) {
    exists i :: 0 <= i < |wal| && id in wal[i]
  }

  /** What `open` makes of a file and a log. */
  function Recovered(file: Pages, wal: seq<Batch>): (pages: Pages) {
    View(Overlay(file, wal))
  }

  /** Two files alike but for pages the log holds, or past the end. */
  ghost predicate AlikeBut(file: Pages, other: Pages, torn: set<PageId>) {
    forall id | id !in torn :: (id in file <==> id in other) && (id in file ==> file[id] == other[id])
  }

  /** A page the log holds is read from there. */
  lemma {:induction false} OverlayAt(file: Pages, other: Pages, wal: seq<Batch>, id: PageId)
    requires Logged(wal, id) || ((id in file <==> id in other) && (id in file ==> file[id] == other[id]))
    ensures id in Overlay(file, wal) <==> id in Overlay(other, wal)
    ensures id in Overlay(file, wal) ==> Overlay(file, wal)[id] == Overlay(other, wal)[id]
    ensures !Logged(wal, id) ==> (id in Overlay(file, wal) <==> id in file)
    ensures !Logged(wal, id) && id in file ==> Overlay(file, wal)[id] == file[id]
    ensures Logged(wal, id) ==> id in Overlay(file, wal)
  {
    if wal != [] {
      var n := |wal| - 1;
      if id !in wal[n] {
        assert Logged(wal, id) <==> Logged(wal[..n], id) by {
          if Logged(wal, id) {
            var i :| 0 <= i < |wal| && id in wal[i];
            assert id in wal[..n][i];
          }
          if Logged(wal[..n], id) {
            var i :| 0 <= i < n && id in wal[..n][i];
            assert id in wal[i];
          }
        }
        OverlayAt(file, other, wal[..n], id);
      }
    }
  }

  /** Torn pages do not matter where the log holds them, or they are past the
      end: a crash in the middle of writing back loses nothing. */
  lemma TornIsCovered(file: Pages, other: Pages, wal: seq<Batch>, torn: set<PageId>)
    requires AlikeBut(file, other, torn) && Whole(Recovered(file, wal))
    requires forall id <- torn :: Logged(wal, id) || id >= Count(Recovered(file, wal))
    ensures Recovered(other, wal) == Recovered(file, wal)
  {
    var (a, b) := (Overlay(file, wal), Overlay(other, wal));
    var n := Count(a);
    assert Count(View(a)) == n by { assert 0 in View(a); }
    forall id | id < n
      ensures id in a <==> id in b
      ensures id in a ==> a[id] == b[id]
    {
      OverlayAt(file, other, wal, id);
    }
    assert 0 in a && Count(b) == n;
    assert View(a) == View(b);
  }

  // ------------------------------------------------------------------ the machine

  /** What became of a batch's `transact`: it runs, returned `Ok`, returned an
      error on a database that goes on, or its fate is open: the database was
      poisoned, or went down under it. */
  datatype Outcome = Running | Ok | Err | Unsure

  /** A batch that reached the log, and whether it is in the database. */
  datatype Attempt = Attempt(batch: Batch, outcome: Outcome, kept: bool)

  /** Every batch kept, applied in order. */
  function Kept(base: Pages, attempts: seq<Attempt>): (pages: Pages) {
    if attempts == [] then base
    else
      var before := Kept(base, attempts[..|attempts| - 1]);
      var last := attempts[|attempts| - 1];
      if last.kept then Apply(before, last.batch) else before
  }

  /** Where the writer is. `inside` a checkpoint: whether a batch began it. */
  datatype Phase =
    | Closed
    | Restoring(batch: nat, done: set<PageId>)
    | Trimmed
    | Restored
    | Idle
    | Logging
    | Undoing
    | Durable
    | Published
    | WritingBack(inside: bool, written: set<PageId>)
    | WrittenBack(inside: bool)

  datatype State = State(
    base: Pages,
    // The file, and its pages written or cut since it was last flushed.
    file: Pages, torn: set<PageId>,
    // The log's whole batches; what it held before a cut not flushed yet;
    // whether bytes of the last attempt's batch may lie behind them.
    wal: seq<Batch>, uncut: Option<seq<Batch>>, extra: bool,
    // In memory: the last commit, and its pages not written back.
    phase: Phase, committed: Pages, unwritten: Pages, poisoned: bool,
    attempts: seq<Attempt>)

  datatype Step =
    | Log(batch: Batch)
    | LogOk
    | LogFails
    | UndoOk
    | UndoFails
    | Publish
    | Return
    | StartCheckpoint
    | WriteBack(id: PageId)
    | CutFile
    | CheckpointFails
    | Flush
    | CutLog
    | CutLogUnflushed
    | CutLogFails
    | Crash(file: Pages, reappears: bool, whole: bool)
    | Open
    | RestorePage(id: PageId)
    | NextBatch
    | CutRestored
    | FlushRestored
    | NothingLogged
    | Serve

  function Last(s: State): (a: Attempt)
    requires s.attempts != []
  {
    s.attempts[|s.attempts| - 1]
  }

  function WithLast(s: State, a: Attempt): (attempts: seq<Attempt>)
    requires s.attempts != []
  {
    s.attempts[..|s.attempts| - 1] + [a]
  }

  function UpTo(pages: Pages, n: nat): (cut: Pages) {
    map id | id in pages && id < n :: pages[id]
  }

  function Back(inside: bool): (phase: Phase) {
    if inside then Published else Idle
  }

  /** Which step may follow, and what it changes. Everything under the writer's
      lock, so one step at a time. */
  ghost predicate Next(s: State, t: State, step: Step) {
    match step
    // `transact`, from a staged batch on.
    case Log(batch) =>
      && s.phase == Idle && !s.poisoned && Fits(s.committed, batch)
      && t == s.(phase := Logging, extra := true, attempts := s.attempts + [Attempt(batch, Running, false)])
    case LogOk =>
      && s.phase == Logging && s.attempts != []
      && t == s.(phase := Durable, wal := s.wal + [Last(s).batch], uncut := None, extra := false,
                 attempts := WithLast(s, Last(s).(kept := true)))
    case LogFails =>
      s.phase == Logging && t == s.(phase := Undoing)
    case UndoOk =>
      && s.phase == Undoing && s.attempts != []
      && t == s.(phase := Idle, uncut := None, extra := false, attempts := WithLast(s, Last(s).(outcome := Err)))
    case UndoFails =>
      && s.phase == Undoing && s.attempts != []
      && t == s.(phase := Idle, poisoned := true, attempts := WithLast(s, Last(s).(outcome := Unsure)))
    case Publish =>
      && s.phase == Durable && s.attempts != []
      && var committed := Apply(s.committed, Last(s).batch);
         t == s.(phase := Published, committed := committed,
                 unwritten := UpTo(s.unwritten + Last(s).batch, Count(committed)))
    case Return =>
      && s.phase == Published && s.attempts != []
      && t == s.(phase := Idle, attempts := WithLast(s, Last(s).(outcome := Ok)))
    // A checkpoint: by a batch, or on its own.
    case StartCheckpoint =>
      && (s.phase == Published || (s.phase == Idle && !s.poisoned))
      && t == s.(phase := WritingBack(s.phase == Published, {}))
    case WriteBack(id) =>
      && s.phase.WritingBack? && id in s.unwritten
      && t == s.(file := s.file[id := s.unwritten[id]], torn := s.torn + {id},
                 phase := s.phase.(written := s.phase.written + {id}))
    case CutFile =>
      && s.phase.WritingBack? && s.phase.written == s.unwritten.Keys != {}
      && var cut := UpTo(s.file, Count(s.committed));
         t == s.(file := cut, torn := s.torn + (s.file.Keys - cut.Keys))
    case CheckpointFails =>
      s.phase.WritingBack? && t == s.(phase := Back(s.phase.inside))
    case Flush =>
      && s.phase.WritingBack? && s.phase.written == s.unwritten.Keys
      && t == s.(phase := WrittenBack(s.phase.inside), torn := {}, unwritten := map[])
    case CutLog =>
      && s.phase.WrittenBack?
      && t == s.(phase := Back(s.phase.inside), wal := [], uncut := None)
    case CutLogUnflushed =>
      && (s.phase.WrittenBack? || s.phase == Restored)
      && t == s.(phase := if s.phase == Restored then Restored else Back(s.phase.inside), wal := [],
                 uncut := Some(if s.uncut.Some? then s.uncut.value else s.wal))
    case CutLogFails =>
      s.phase.WrittenBack? && t == s.(phase := Back(s.phase.inside))
    // The process or the machine goes down: what was not flushed may be any
    // way, a cut not flushed may not have been, and the bytes of a batch being
    // logged, or whose undo failed, may turn out a whole record.
    case Crash(file, reappears, whole) =>
      && s.phase != Closed && AlikeBut(s.file, file, s.torn)
      && (reappears ==> s.uncut.Some? && !whole) && (whole ==> s.extra && s.attempts != [])
      && t == s.(file := file, torn := {}, uncut := None, extra := false, phase := Closed,
                 committed := map[], unwritten := map[], poisoned := false,
                 wal := if reappears then s.uncut.value else if whole then s.wal + [Last(s).batch] else s.wal,
                 attempts := if (s.attempts != [] && Last(s).outcome.Running?) || whole
                             then WithLast(s, Last(s).(outcome := Unsure, kept := Last(s).kept || whole))
                             else s.attempts)
    // `open`: the log's images to the file in the order logged, the file cut to
    // its page count and flushed, and the log emptied before anything is served.
    // An empty log leaves the file alone.
    case Open =>
      s.phase == Closed && t == s.(phase := Restoring(0, {}))
    case RestorePage(id) =>
      && s.phase.Restoring? && s.phase.batch < |s.wal| && id in s.wal[s.phase.batch]
      && t == s.(file := s.file[id := s.wal[s.phase.batch][id]], torn := s.torn + {id},
                 phase := s.phase.(done := s.phase.done + {id}))
    case NextBatch =>
      && s.phase.Restoring? && s.phase.batch < |s.wal| && s.phase.done == s.wal[s.phase.batch].Keys
      && t == s.(phase := Restoring(s.phase.batch + 1, {}))
    case CutRestored =>
      && s.phase.Restoring? && s.phase.batch == |s.wal| && s.wal != []
      && var cut := UpTo(s.file, Count(s.file));
         t == s.(phase := Trimmed, file := cut, torn := s.torn + (s.file.Keys - cut.Keys))
    case FlushRestored =>
      s.phase == Trimmed && t == s.(phase := Restored, torn := {})
    case NothingLogged =>
      s.phase.Restoring? && s.wal == [] && t == s.(phase := Restored)
    case Serve =>
      && s.phase == Restored && s.uncut.None?
      && t == s.(phase := Idle, wal := [], committed := View(s.file), unwritten := map[], poisoned := false)
  }

  // --------------------------------------------------------------- the invariant

  ghost function Hist(s: State): (pages: Pages) {
    Kept(s.base, s.attempts)
  }

  /** What is on disk recovers to the batches kept, whatever the torn pages
      hold, and with or without a cut not flushed. */
  ghost predicate DiskOk(s: State) {
    && Whole(s.base) && Whole(Hist(s))
    && Recovered(s.file, s.wal) == Hist(s)
    && (forall id <- s.torn :: Logged(s.wal, id) || id >= Count(Hist(s)))
    && (s.uncut.Some? ==> s.wal == [] && s.torn == {} && Recovered(s.file, s.uncut.value) == Hist(s))
  }

  /** A caller was told what became of it. */
  predicate Settled(a: Attempt) {
    a.outcome.Ok? || a.outcome.Err?
  }

  /** What a caller was told holds. */
  ghost predicate Honest(a: Attempt) {
    (a.outcome.Ok? ==> a.kept) && (a.outcome.Err? ==> !a.kept)
  }

  ghost predicate OutcomesOk(s: State) {
    && (forall a <- s.attempts :: Honest(a))
    && (s.extra ==> s.attempts != [] && !Last(s).kept && !Settled(Last(s)) && Fits(Hist(s), Last(s).batch))
  }

  predicate Serving(phase: Phase) {
    !phase.Closed? && !phase.Restoring? && !phase.Trimmed? && !phase.Restored?
  }

  /** The file holds every page of the last commit that is not waiting. */
  ghost predicate Coherent(committed: Pages, unwritten: Pages, file: Pages) {
    && Whole(committed)
    && (forall id | id < Count(committed) ::
          if id in unwritten then committed[id] == unwritten[id] else id in file && file[id] == committed[id])
  }

  ghost predicate MemoryOk(s: State) {
    && Coherent(s.committed, s.unwritten, s.file)
    && (forall id <- s.unwritten :: id < Count(s.committed) && Logged(s.wal, id))
    && (forall id <- s.torn :: id in s.unwritten || id >= Count(s.committed))
    && (s.unwritten == map[] ==> s.torn == {})
    && (s.uncut.Some? ==> s.unwritten == map[])
    && if s.phase == Durable
       then && s.attempts != [] && s.committed == Kept(s.base, s.attempts[..|s.attempts| - 1])
            && Fits(s.committed, Last(s).batch) && Hist(s) == Apply(s.committed, Last(s).batch)
       else s.committed == Hist(s)
  }

  ghost predicate InBatch(s: State, kept: bool) {
    s.attempts != [] && Last(s).outcome.Running? && Last(s).kept == kept
  }

  /** Every page of the first `i` batches laid down, as its last image there,
      and the `done` ones of the next. */
  ghost predicate Laid(file: Pages, wal: seq<Batch>, i: nat, done: set<PageId>)
    requires i <= |wal|
  {
    && (forall id <- done :: i < |wal| && id in wal[i] && id in file && file[id] == wal[i][id])
    && (forall id | Logged(wal[..i], id) && id !in done ::
          id in file && id in Overlay(file, wal[..i]) && file[id] == Overlay(file, wal[..i])[id])
  }

  ghost predicate PhaseOk(s: State) {
    && (s.poisoned ==> s.phase.Idle?)
    && match s.phase
       case Closed => !s.extra && s.uncut.None? && s.torn == {}
       case Restoring(i, done) =>
         && !s.extra && s.uncut.None? && i <= |s.wal| && Laid(s.file, s.wal, i, done)
         && (s.wal == [] ==> s.torn == {})
       case Trimmed => !s.extra && s.uncut.None? && View(s.file) == Hist(s)
       case Restored => !s.extra && s.torn == {} && View(s.file) == Hist(s)
       case Idle => s.extra ==> s.poisoned
       case Logging => s.extra && InBatch(s, false)
       case Undoing => s.extra && InBatch(s, false)
       case Durable => !s.extra && InBatch(s, true) && s.wal != [] && s.wal[|s.wal| - 1] == Last(s).batch
       case Published => !s.extra && InBatch(s, true)
       case WritingBack(inside, written) =>
         && !s.extra && (inside ==> InBatch(s, true)) && written <= s.unwritten.Keys
         && (forall id <- written :: id in s.file && s.file[id] == s.unwritten[id])
       case WrittenBack(inside) =>
         !s.extra && (inside ==> InBatch(s, true)) && s.unwritten == map[] && s.torn == {}
  }

  ghost predicate Inv(s: State) {
    DiskOk(s) && OutcomesOk(s) && PhaseOk(s) && (Serving(s.phase) ==> MemoryOk(s))
  }

  // ----------------------------------------------------- facts about the disk

  lemma RecoveredOneMore(file: Pages, wal: seq<Batch>, batch: Batch)
    requires Whole(Recovered(file, wal)) && Fits(Recovered(file, wal), batch)
    ensures Recovered(file, wal + [batch]) == Apply(Recovered(file, wal), batch)
  {
    assert (wal + [batch])[..|wal|] == wal;
    ViewThenApply(Overlay(file, wal), batch);
  }

  lemma ViewThenApply(pages: Pages, batch: Batch)
    requires Whole(View(pages)) && Fits(View(pages), batch)
    ensures View(pages + batch) == Apply(View(pages), batch)
  {
    var (a, b) := (pages + batch, View(pages) + batch);
    assert 0 in View(pages);
    assert Count(a) == Count(b);
    assert forall id :: id < Count(a) && id in a ==> id in b && a[id] == b[id];
  }

  lemma KeptWithLast(s: State, a: Attempt)
    requires s.attempts != []
    ensures var before := Kept(s.base, s.attempts[..|s.attempts| - 1]);
            Kept(s.base, WithLast(s, a)) == if a.kept then Apply(before, a.batch) else before
  {
    assert WithLast(s, a)[..|s.attempts| - 1] == s.attempts[..|s.attempts| - 1];
  }

  lemma KeptOneMore(base: Pages, attempts: seq<Attempt>, a: Attempt)
    requires !a.kept
    ensures Kept(base, attempts + [a]) == Kept(base, attempts)
  {
    assert (attempts + [a])[..|attempts|] == attempts;
  }

  /** Written back whole, the file is the last commit. */
  lemma FileIsCommitted(committed: Pages, file: Pages)
    requires Coherent(committed, map[], file)
    ensures View(file) == committed
  {
    assert 0 in committed;
    assert Count(file) == Count(committed);
  }

  lemma LoggedStays(wal: seq<Batch>, batch: Batch, id: PageId)
    ensures Logged(wal + [batch], id) <==> Logged(wal, id) || id in batch
  {
    var more := wal + [batch];
    if Logged(wal, id) {
      var i :| 0 <= i < |wal| && id in wal[i];
      assert id in more[i];
    }
    assert more[|wal|] == batch;
  }

  // ------------------------------------------------------ each step keeps it

  lemma LogKeeps(s: State, t: State, batch: Batch)
    requires Inv(s) && Next(s, t, Log(batch))
    ensures Inv(t)
  {
    hide Kept, Recovered, Fits, Whole, Coherent, Logged, Laid;
    KeptOneMore(s.base, s.attempts, Attempt(batch, Running, false));
  }

  lemma LogOkKeeps(s: State, t: State)
    requires Inv(s) && Next(s, t, LogOk)
    ensures Inv(t)
  {
    hide Kept, Recovered, Fits, Whole, Coherent, Logged, Laid, Apply, Count;
    var batch := Last(s).batch;
    KeptWithLast(s, Last(s));
    KeptWithLast(s, Last(s).(kept := true));
    assert WithLast(s, Last(s)) == s.attempts;
    RecoveredOneMore(s.file, s.wal, batch);
    ApplyIsWhole(Hist(s), batch);
    forall id ensures Logged(t.wal, id) <==> Logged(s.wal, id) || id in batch {
      LoggedStays(s.wal, batch, id);
    }
    forall id | id in s.torn ensures Logged(t.wal, id) || id >= Count(Hist(t)) {
      GrownIsLogged(s.committed, batch, id);
    }
  }

  /** A page past the end before a batch and not past it after is in it. */
  lemma GrownIsLogged(pages: Pages, batch: Batch, id: PageId)
    requires Whole(pages) && Fits(pages, batch)
    ensures id >= Count(pages) && id !in batch ==> id >= Count(Apply(pages, batch))
  {
    var after := pages + batch;
    assert 0 in after;
    assert Count(View(after)) == Count(after);
    assert id in after <==> id in pages || id in batch;
  }

  lemma UndoKeeps(s: State, t: State, step: Step)
    requires Inv(s) && (step == LogFails || step == UndoOk || step == UndoFails) && Next(s, t, step)
    ensures Inv(t)
  {
    hide Kept, Recovered, Fits, Whole, Coherent, Logged, Laid, Apply, Count;
    KeptWithLast(s, Last(s));
    assert WithLast(s, Last(s)) == s.attempts;
    if step != LogFails {
      KeptWithLast(s, Last(t));
    }
  }

  lemma PublishKeeps(s: State, t: State)
    requires Inv(s) && Next(s, t, Publish)
    ensures Inv(t)
  {
    hide *;
    PublishedMemory(s, t);
    PublishedRest(s, t);
  }

  lemma PublishedRest(s: State, t: State)
    requires Inv(s) && Next(s, t, Publish) && MemoryOk(t)
    ensures Inv(t)
  {
    hide Kept, Recovered, Fits, Whole, Coherent, Logged, Laid, Apply, Count, UpTo;
  }

  lemma PublishedMemory(s: State, t: State)
    requires Inv(s) && Next(s, t, Publish)
    ensures MemoryOk(t)
  {
    hide Kept, Recovered, Laid, Apply, View, Coherent, Logged;
    var batch := Last(s).batch;
    CoherentAfter(s.committed, s.unwritten, s.file, batch);
    LastIsLogged(s.wal);
    assert Whole(s.committed) by { CoherentIsWhole(s.committed, s.unwritten, s.file); }
    Waiting(s.committed, s.unwritten, s.torn, batch);
    hide Fits, Whole, UpTo, Count;
  }

  lemma CoherentIsWhole(committed: Pages, unwritten: Pages, file: Pages)
    requires Coherent(committed, unwritten, file)
    ensures Whole(committed)
  {
  }

  lemma LastIsLogged(wal: seq<Batch>)
    requires wal != []
    ensures forall id <- wal[|wal| - 1] :: Logged(wal, id)
  {
  }

  /** What waits after a batch, and which pages may be torn. */
  lemma Waiting(committed: Pages, unwritten: Pages, torn: set<PageId>, batch: Batch)
    requires Whole(committed) && Fits(committed, batch)
    requires forall id <- unwritten :: id < Count(committed)
    requires forall id <- torn :: id in unwritten || id >= Count(committed)
    requires unwritten == map[] ==> torn == {}
    ensures var n := Count(Apply(committed, batch));
            var after := UpTo(unwritten + batch, n);
            && (forall id <- after :: id < n && (id in unwritten || id in batch))
            && (forall id <- torn :: id in after || id >= n)
            && (after == map[] ==> torn == {})
  {
    var n := Count(Apply(committed, batch));
    AppliedPages(committed, batch);
    forall id | id in torn ensures id in UpTo(unwritten + batch, n) || id >= n {
      GrownIsLogged(committed, batch, id);
    }
    hide Apply;
    if UpTo(unwritten + batch, n) == map[] {
      assert batch == map[] by {
        if id :| id in batch { assert id in UpTo(unwritten + batch, n); }
      }
      assert committed + batch == committed;
      assert unwritten == map[] by {
        if id :| id in unwritten { assert id in UpTo(unwritten + batch, n); }
      }
    }
  }

  lemma AppliedPages(pages: Pages, batch: Batch)
    requires Whole(pages) && Fits(pages, batch)
    ensures Count(Apply(pages, batch)) == Count(pages + batch)
    ensures forall id :: id in Apply(pages, batch) <==> id < Count(pages + batch)
    ensures forall id <- Apply(pages, batch) ::
              Apply(pages, batch)[id] == if id in batch then batch[id] else pages[id]
  {
    var after := pages + batch;
    assert 0 in after;
    assert forall id :: id in after <==> id in pages || id in batch;
  }

  lemma CoherentAfter(committed: Pages, unwritten: Pages, file: Pages, batch: Batch)
    requires Coherent(committed, unwritten, file) && Fits(committed, batch)
    ensures var after := Apply(committed, batch);
            Coherent(after, UpTo(unwritten + batch, Count(after)), file)
  {
    ApplyIsWhole(committed, batch);
    AppliedPages(committed, batch);
    var after := Apply(committed, batch);
    var waiting := UpTo(unwritten + batch, Count(after));
    hide Apply, Fits;
    forall id | id < Count(after)
      ensures if id in waiting then after[id] == waiting[id] else id in file && file[id] == after[id]
    {
      assert id in waiting <==> id in unwritten || id in batch;
      assert id in after;
    }
  }

  lemma ReturnKeeps(s: State, t: State)
    requires Inv(s) && Next(s, t, Return)
    ensures Inv(t)
  {
    hide Kept, Recovered, Fits, Whole, Coherent, Logged, Laid, Apply, Count;
    KeptWithLast(s, Last(s));
    assert WithLast(s, Last(s)) == s.attempts;
    KeptWithLast(s, Last(t));
  }

  // ------------------------------------------------------------- a checkpoint

  lemma TurnKeeps(s: State, t: State, step: Step)
    requires Inv(s) && (step == StartCheckpoint || step == CheckpointFails || step == CutLogFails)
    requires Next(s, t, step)
    ensures Inv(t)
  {
    hide Kept, Recovered, Fits, Whole, Coherent, Logged, Laid, Apply, Count;
  }

  lemma WriteBackKeeps(s: State, t: State, id: PageId)
    requires Inv(s) && Next(s, t, WriteBack(id))
    ensures Inv(t)
  {
    hide Kept, Recovered, Fits, Logged, Laid, Apply, Count, Whole;
    TornIsCovered(s.file, t.file, s.wal, {id});
    WrittenBackPage(s.committed, s.unwritten, s.file, id);
    hide Coherent;
  }

  lemma WrittenBackPage(committed: Pages, unwritten: Pages, file: Pages, id: PageId)
    requires Coherent(committed, unwritten, file) && id in unwritten
    ensures Coherent(committed, unwritten, file[id := unwritten[id]])
  {
    hide Count;
  }

  /** Pages cut off the end are past it in what recovers. */
  lemma CutIsCovered(file: Pages, wal: seq<Batch>, n: nat)
    requires Whole(Recovered(file, wal)) && n == Count(Recovered(file, wal))
    ensures Recovered(UpTo(file, n), wal) == Recovered(file, wal)
  {
    var cut := UpTo(file, n);
    hide Recovered, Whole;
    TornIsCovered(file, cut, wal, file.Keys - cut.Keys);
  }

  lemma CutFileKeeps(s: State, t: State)
    requires Inv(s) && Next(s, t, CutFile)
    ensures Inv(t)
  {
    hide Kept, Recovered, Fits, Logged, Laid, Apply, Whole;
    CutIsCovered(s.file, s.wal, Count(s.committed));
    assert Coherent(t.committed, t.unwritten, t.file);
    hide Coherent, Count;
  }

  lemma FlushKeeps(s: State, t: State)
    requires Inv(s) && Next(s, t, Flush)
    ensures Inv(t)
  {
    hide Kept, Recovered, Fits, Logged, Laid, Apply, Whole, Count;
    assert Coherent(t.committed, map[], t.file);
    hide Coherent;
  }

  lemma CutLogKeeps(s: State, t: State, step: Step)
    requires Inv(s) && (step == CutLog || step == CutLogUnflushed) && Next(s, t, step)
    ensures Inv(t)
  {
    hide Kept, Fits, Logged, Laid, Apply, Whole, Count, View, Overlay;
    if s.phase.WrittenBack? {
      FileIsCommitted(s.committed, s.file);
    }
    NoLog(s.file);
    hide Recovered, Coherent;
  }

  lemma NoLog(file: Pages)
    ensures Recovered(file, []) == View(file)
  {
  }

  // ---------------------------------------------------------- a crash, an open

  lemma SameFile(file: Pages, other: Pages)
    requires AlikeBut(file, other, {})
    ensures file == other
  {
    assert forall id :: id in file <==> id in other;
  }

  lemma CrashKeeps(s: State, t: State, file: Pages, reappears: bool, whole: bool)
    requires Inv(s) && Next(s, t, Crash(file, reappears, whole))
    ensures Inv(t)
  {
    hide Kept, Recovered, Fits, Logged, Laid, Apply, Whole, Count, Coherent;
    TornIsCovered(s.file, file, s.wal, s.torn);
    if s.attempts != [] {
      KeptWithLast(s, Last(s));
      assert WithLast(s, Last(s)) == s.attempts;
    }
    if reappears { SameFile(s.file, file); }
    if whole {
      RecoveredOneMore(file, s.wal, Last(s).batch);
      ApplyIsWhole(Hist(s), Last(s).batch);
    }
    if t.attempts != s.attempts { KeptWithLast(s, Last(t)); }
    hide AlikeBut;
  }

  lemma OpenKeeps(s: State, t: State)
    requires Inv(s) && Next(s, t, Open)
    ensures Inv(t)
  {
    hide Kept, Recovered, Fits, Apply, Whole, Count, Coherent;
  }

  lemma RestorePageKeeps(s: State, t: State, id: PageId)
    requires Inv(s) && Next(s, t, RestorePage(id))
    ensures Inv(t)
  {
    hide Kept, Fits, Apply, Whole, Count, Coherent, Recovered, Laid;
    assert Logged(s.wal, id);
    TornIsCovered(s.file, t.file, s.wal, {id});
    LaidOneMore(s.file, s.wal, s.phase.batch, s.phase.done, id);
    hide Logged;
  }

  lemma LaidOneMore(file: Pages, wal: seq<Batch>, i: nat, done: set<PageId>, id: PageId)
    requires i < |wal| && id in wal[i] && Laid(file, wal, i, done)
    ensures Laid(file[id := wal[i][id]], wal, i, done + {id})
  {
    var after := file[id := wal[i][id]];
    forall k | Logged(wal[..i], k) && k !in done + {id}
      ensures k in after && k in Overlay(after, wal[..i]) && after[k] == Overlay(after, wal[..i])[k]
    {
      OverlayAt(file, after, wal[..i], k);
    }
  }

  lemma NextBatchKeeps(s: State, t: State)
    requires Inv(s) && Next(s, t, NextBatch)
    ensures Inv(t)
  {
    hide Kept, Fits, Apply, Whole, Count, Coherent, Recovered, Laid;
    LaidBatch(s.file, s.wal, s.phase.batch, s.phase.done);
    hide Logged;
  }

  lemma LaidBatch(file: Pages, wal: seq<Batch>, i: nat, done: set<PageId>)
    requires i < |wal| && done == wal[i].Keys && Laid(file, wal, i, done)
    ensures Laid(file, wal, i + 1, {})
  {
    assert wal[..i + 1] == wal[..i] + [wal[i]];
    assert wal[..i + 1][..i] == wal[..i];
    forall k | Logged(wal[..i + 1], k)
      ensures k in file && k in Overlay(file, wal[..i + 1]) && file[k] == Overlay(file, wal[..i + 1])[k]
    {
      LoggedStays(wal[..i], wal[i], k);
      OverlayAt(file, file, wal[..i], k);
    }
  }

  /** Laid down whole, the file is what recovers. */
  lemma LaidIsRecovered(file: Pages, wal: seq<Batch>, done: set<PageId>)
    requires Laid(file, wal, |wal|, done)
    ensures Overlay(file, wal) == file
  {
    assert wal[..|wal|] == wal;
    forall k
      ensures k in Overlay(file, wal) <==> k in file
      ensures k in file ==> Overlay(file, wal)[k] == file[k]
    {
      OverlayAt(file, file, wal, k);
    }
  }

  lemma CutRestoredKeeps(s: State, t: State)
    requires Inv(s) && Next(s, t, CutRestored)
    ensures Inv(t)
  {
    hide Kept, Fits, Apply, Coherent, Laid, Overlay, Logged, Whole;
    LaidIsRecovered(s.file, s.wal, s.phase.done);
    assert Recovered(s.file, s.wal) == View(s.file);
    CutFileIsView(s.file);
    CutIsCovered(s.file, s.wal, Count(s.file));
    hide Recovered, View, Count;
  }

  lemma FlushRestoredKeeps(s: State, t: State)
    requires Inv(s) && Next(s, t, FlushRestored)
    ensures Inv(t)
  {
    hide Kept, Recovered, Fits, Apply, Whole, Count, Coherent, View;
  }

  lemma NothingLoggedKeeps(s: State, t: State)
    requires Inv(s) && Next(s, t, NothingLogged)
    ensures Inv(t)
  {
    hide Kept, Fits, Apply, Whole, Count, Coherent, View, Overlay;
    NoLog(s.file);
    hide Recovered;
  }

  lemma CutFileIsView(file: Pages)
    requires Whole(View(file))
    ensures Count(View(file)) == Count(file)
    ensures UpTo(file, Count(file)) == View(file) && View(View(file)) == View(file)
  {
    assert 0 in View(file);
  }

  lemma ServeKeeps(s: State, t: State)
    requires Inv(s) && Next(s, t, Serve)
    ensures Inv(t)
  {
    hide Kept, Fits, Apply, Laid, Overlay, Logged, Whole, Recovered;
    NoLog(s.file);
    ServedIsCoherent(s.file);
    hide Coherent, View, Count;
  }

  lemma ServedIsCoherent(file: Pages)
    requires Whole(View(file))
    ensures Coherent(View(file), map[], file)
  {
    assert 0 in View(file);
    forall id | id < Count(View(file)) ensures id in file && file[id] == View(file)[id] {
      assert id in View(file);
    }
  }

  // ------------------------------------------------------------- every run

  lemma NextKeeps(s: State, t: State, step: Step)
    requires Inv(s) && Next(s, t, step)
    ensures Inv(t)
  {
    hide *;
    match step
    case Log(batch) => LogKeeps(s, t, batch);
    case LogOk => LogOkKeeps(s, t);
    case LogFails => UndoKeeps(s, t, step);
    case UndoOk => UndoKeeps(s, t, step);
    case UndoFails => UndoKeeps(s, t, step);
    case Publish => PublishKeeps(s, t);
    case Return => ReturnKeeps(s, t);
    case StartCheckpoint => TurnKeeps(s, t, step);
    case WriteBack(id) => WriteBackKeeps(s, t, id);
    case CutFile => CutFileKeeps(s, t);
    case CheckpointFails => TurnKeeps(s, t, step);
    case Flush => FlushKeeps(s, t);
    case CutLog => CutLogKeeps(s, t, step);
    case CutLogUnflushed => CutLogKeeps(s, t, step);
    case CutLogFails => TurnKeeps(s, t, step);
    case Crash(file, reappears, whole) => CrashKeeps(s, t, file, reappears, whole);
    case Open => OpenKeeps(s, t);
    case RestorePage(id) => RestorePageKeeps(s, t, id);
    case NextBatch => NextBatchKeeps(s, t);
    case CutRestored => CutRestoredKeeps(s, t);
    case FlushRestored => FlushRestoredKeeps(s, t);
    case NothingLogged => NothingLoggedKeeps(s, t);
    case Serve => ServeKeeps(s, t);
  }

  /** A database as it was last closed: nothing in the log. */
  ghost predicate Init(s: State) {
    && s == State(s.base, s.base, {}, [], None, false, Closed, map[], map[], false, [])
    && Whole(s.base)
  }

  /** A run: any number of batches, checkpoints, crashes and opens. */
  ghost predicate IsRun(run: seq<State>, steps: seq<Step>) {
    && |run| == |steps| + 1 && Init(run[0])
    && forall i :: 0 <= i < |steps| ==> Next(run[i], run[i + 1], steps[i])
  }

  lemma InitHolds(s: State)
    requires Init(s)
    ensures Inv(s)
  {
    CutFileIsViewOfWhole(s.base);
  }

  lemma CutFileIsViewOfWhole(pages: Pages)
    requires Whole(pages)
    ensures View(pages) == pages
  {
  }

  lemma {:induction false} RunHolds(run: seq<State>, steps: seq<Step>, i: nat)
    requires IsRun(run, steps) && i < |run|
    ensures Inv(run[i])
  {
    if i == 0 {
      InitHolds(run[0]);
    } else {
      RunHolds(run, steps, i - 1);
      hide Inv, Next;
      NextKeeps(run[i - 1], run[i], steps[i - 1]);
    }
  }

  // ---------------------------------------------- what was told stays so

  /** Nothing to come can change what became of attempt `k`: its caller was
      told, or a later batch was logged, or the log has no bytes of it left
      that could turn out a whole record. */
  predicate Decided(s: State, k: nat)
    requires k < |s.attempts|
  {
    k + 1 < |s.attempts| || Settled(s.attempts[k]) || (s.attempts[k].outcome.Unsure? && !s.extra)
  }

  /** The attempts of `s` are still there in `t`, and as they were if decided. */
  ghost predicate Carried(s: State, t: State) {
    && t.base == s.base && |s.attempts| <= |t.attempts|
    && forall k :: 0 <= k < |s.attempts| ==>
         && t.attempts[k].batch == s.attempts[k].batch
         && (Decided(s, k) ==> t.attempts[k] == s.attempts[k] && Decided(t, k))
  }

  lemma SameAttempts(s: State, t: State)
    requires t.base == s.base && t.attempts == s.attempts && (t.extra ==> s.extra)
    ensures Carried(s, t)
  {
  }

  /** Only the last attempt is ever told of, and only while it is open. */
  lemma LastAttempt(s: State, t: State, a: Attempt)
    requires s.attempts != [] && t.base == s.base && t.attempts == WithLast(s, a) && a.batch == Last(s).batch
    requires !Decided(s, |s.attempts| - 1)
    ensures Carried(s, t)
  {
  }

  /** Steps under which a batch goes on. */
  predicate OfTransact(step: Step) {
    || step.Log? || step == LogOk || step == LogFails || step == UndoOk || step == UndoFails
    || step == Publish || step == Return
  }

  predicate OfCheckpoint(step: Step) {
    || step == StartCheckpoint || step.WriteBack? || step == CutFile || step == CheckpointFails
    || step == Flush || step == CutLog || step == CutLogUnflushed || step == CutLogFails
  }

  lemma TransactCarries(s: State, t: State, step: Step)
    requires PhaseOk(s) && Next(s, t, step)
    requires OfTransact(step)
    ensures Carried(s, t)
  {
    hide Laid, Fits, Apply, Count, View, UpTo, Kept;
    if step == LogFails || step == Publish {
      SameAttempts(s, t);
    } else if !step.Log? {
      LastAttempt(s, t, Last(t));
    }
    hide Carried;
  }

  lemma CrashCarries(s: State, t: State, file: Pages, reappears: bool, whole: bool)
    requires OutcomesOk(s) && Next(s, t, Crash(file, reappears, whole))
    ensures Carried(s, t)
  {
    hide Fits, Apply, Count, AlikeBut, View, Kept, Carried;
    if t.attempts == s.attempts {
      SameAttempts(s, t);
    } else {
      LastAttempt(s, t, Last(t));
    }
  }

  /** A checkpoint leaves the attempts alone. */
  lemma CheckpointCarries(s: State, t: State, step: Step)
    requires Next(s, t, step) && OfCheckpoint(step)
    ensures Carried(s, t)
  {
    hide Carried, Fits, Apply, Count, AlikeBut, View, UpTo, WithLast;
    match step
    case StartCheckpoint => SameAttempts(s, t);
    case WriteBack(_) => SameAttempts(s, t);
    case CutFile => SameAttempts(s, t);
    case CheckpointFails => SameAttempts(s, t);
    case Flush => SameAttempts(s, t);
    case CutLog => SameAttempts(s, t);
    case CutLogUnflushed => SameAttempts(s, t);
    case CutLogFails => SameAttempts(s, t);
  }

  /** So does an open. */
  lemma OpenCarries(s: State, t: State, step: Step)
    requires Next(s, t, step) && !OfTransact(step) && !OfCheckpoint(step) && !step.Crash?
    ensures Carried(s, t)
  {
    hide Carried, Fits, Apply, Count, AlikeBut, View, UpTo, WithLast;
    match step
    case Open => SameAttempts(s, t);
    case RestorePage(_) => SameAttempts(s, t);
    case NextBatch => SameAttempts(s, t);
    case CutRestored => SameAttempts(s, t);
    case FlushRestored => SameAttempts(s, t);
    case NothingLogged => SameAttempts(s, t);
    case Serve => SameAttempts(s, t);
  }

  lemma StepCarries(s: State, t: State, step: Step)
    requires Inv(s) && Next(s, t, step)
    ensures Carried(s, t)
  {
    hide DiskOk, OutcomesOk, PhaseOk, MemoryOk, Carried, Next;
    if OfTransact(step) {
      TransactCarries(s, t, step);
    } else if OfCheckpoint(step) {
      CheckpointCarries(s, t, step);
    } else if step.Crash? {
      CrashCarries(s, t, step.file, step.reappears, step.whole);
    } else {
      OpenCarries(s, t, step);
    }
  }

  lemma CarriedOn(s: State, t: State, u: State)
    requires Carried(s, t) && Carried(t, u)
    ensures Carried(s, u)
  {
    hide Decided;
  }

  lemma CarriedToSelf(s: State)
    ensures Carried(s, s)
  {
  }

  lemma {:induction false} RunCarries(run: seq<State>, steps: seq<Step>, i: nat, j: nat)
    requires IsRun(run, steps) && i <= j < |run|
    ensures Carried(run[i], run[j])
    decreases j
  {
    hide Inv, Next, Carried, Init;
    if i == j {
      CarriedToSelf(run[i]);
    } else {
      RunCarries(run, steps, i, j - 1);
      RunHolds(run, steps, j - 1);
      StepCarries(run[j - 1], run[j], steps[j - 1]);
      CarriedOn(run[i], run[j - 1], run[j]);
    }
  }

  /** What readers are served: the batches kept, in order, but for one that is
      in the log and not published yet. */
  ghost predicate Serves(s: State) {
    s.committed == Kept(s.base, if s.phase.Durable? && s.attempts != [] then s.attempts[..|s.attempts| - 1]
                                else s.attempts)
  }

  /** Atomic and durable, over every run: whenever the database serves, what it
      holds is exactly the batches kept, in order; every batch whose `transact`
      returned `Ok` is kept, and none that returned an error on a database that
      went on. Neither ever changes: through all later batches, checkpoints,
      crashes and opens the attempt stays what its caller was told. Only a
      batch that a crash or a poisoned database left open may turn out either
      way, and only until the next open. */
  lemma CommittedIsWhatWasKept(run: seq<State>, steps: seq<Step>, i: nat, j: nat)
    requires IsRun(run, steps) && i <= j < |run|
    ensures Serving(run[j].phase) ==> Serves(run[j])
    ensures forall a <- run[j].attempts :: (a.outcome.Ok? ==> a.kept) && (a.outcome.Err? ==> !a.kept)
    ensures run[j].base == run[i].base && |run[i].attempts| <= |run[j].attempts|
    ensures forall k :: 0 <= k < |run[i].attempts| ==>
              && run[j].attempts[k].batch == run[i].attempts[k].batch
              && (Decided(run[i], k) ==> run[j].attempts[k] == run[i].attempts[k])
  {
    RunHolds(run, steps, j);
    RunCarries(run, steps, i, j);
    hide Kept, DiskOk, PhaseOk, Coherent;
  }

  /** So to a caller: a batch that returned `Ok` is in the database in every
      later state, one that returned an error is in none. */
  lemma ReturnedIsFinal(run: seq<State>, steps: seq<Step>, i: nat, j: nat)
    requires IsRun(run, steps) && i < j < |run| && (steps[i] == Return || steps[i] == UndoOk)
    ensures var k := |run[i].attempts| - 1;
            && 0 <= k < |run[j].attempts| && run[j].attempts[k].batch == Last(run[i]).batch
            && (steps[i] == Return ==> run[j].attempts[k].outcome.Ok? && run[j].attempts[k].kept)
            && (steps[i] == UndoOk ==> run[j].attempts[k].outcome.Err? && !run[j].attempts[k].kept)
  {
    assert Next(run[i], run[i + 1], steps[i]);
    CommittedIsWhatWasKept(run, steps, i + 1, j);
    RunHolds(run, steps, j);
    assert Settled(Last(run[i + 1])) && Decided(run[i + 1], |run[i].attempts| - 1);
    hide Inv, Kept;
  }

  /** And whenever it goes down, what lies on disk opens to just that, however
      the pages not flushed turned out. */
  lemma DiskRecovers(run: seq<State>, steps: seq<Step>, i: nat, file: Pages)
    requires IsRun(run, steps) && i < |run| && AlikeBut(run[i].file, file, run[i].torn)
    ensures var s := run[i];
            && Recovered(file, s.wal) == Kept(s.base, s.attempts)
            && (s.uncut.Some? ==> Recovered(file, s.uncut.value) == Kept(s.base, s.attempts))
            && (s.extra ==> s.attempts != [] && Recovered(file, s.wal + [Last(s).batch])
                                              == Apply(Kept(s.base, s.attempts), Last(s).batch))
  {
    var s := run[i];
    RunHolds(run, steps, i);
    hide Kept, Recovered, Whole, Logged, Count, Fits, PhaseOk, MemoryOk;
    TornIsCovered(s.file, file, s.wal, s.torn);
    if s.uncut.Some? { SameFile(s.file, file); }
    if s.extra { RecoveredOneMore(file, s.wal, Last(s).batch); }
  }

  // -------------------------------------------------- an open comes to its end

  ghost predicate Leads(run: seq<State>, steps: seq<Step>) {
    |run| == |steps| + 1 && forall i :: 0 <= i < |steps| ==> Next(run[i], run[i + 1], steps[i])
  }

  lemma LeadsOneMore(run: seq<State>, steps: seq<Step>, t: State, step: Step)
    requires Leads(run, steps) && Next(run[|run| - 1], t, step)
    ensures Leads(run + [t], steps + [step])
  {
    hide Next;
  }

  /** From every state a crash leaves, an open that meets no further trouble
      serves just the batches kept. */
  lemma OpenServes(s: State) returns (run: seq<State>, steps: seq<Step>)
    requires Inv(s) && s.phase == Closed
    ensures Leads(run, steps) && run[0] == s
    ensures var t := run[|run| - 1];
            t.phase == Idle && !t.poisoned && t.committed == Kept(s.base, s.attempts)
  {
    assert s.uncut.None?;
    hide Inv, Kept, Leads, Next;
    var cur := s.(phase := Restoring(0, {}));
    assert Next(s, cur, Open) by { OpenIsEnabled(s); }
    NextKeeps(s, cur, Open);
    LeadsNowhere(s);
    LeadsOneMore([s], [], cur, Open);
    run, steps := [s] + [cur], [] + [Open];
    while cur.phase.batch < |cur.wal|
      invariant Leads(run, steps) && |run| > 0 && run[0] == s && run[|run| - 1] == cur && Inv(cur)
      invariant cur.phase.Restoring? && cur.phase.batch <= |cur.wal|
      invariant cur.phase.batch < |cur.wal| ==> cur.phase.done <= cur.wal[cur.phase.batch].Keys
      invariant cur.base == s.base && cur.attempts == s.attempts && cur.wal == s.wal && cur.uncut == s.uncut
      decreases |cur.wal| - cur.phase.batch,
                if cur.phase.batch < |cur.wal| then cur.wal[cur.phase.batch].Keys - cur.phase.done else {}
    {
      var next, step := RestoreOne(cur);
      NextKeeps(cur, next, step);
      LeadsOneMore(run, steps, next, step);
      run, steps, cur := run + [next], steps + [step], next;
    }
    if cur.wal != [] {
      var cut, flushed := FlushCut(cur);
      NextKeeps(cur, cut, CutRestored);
      LeadsOneMore(run, steps, cut, CutRestored);
      NextKeeps(cut, flushed, FlushRestored);
      LeadsOneMore(run + [cut], steps + [CutRestored], flushed, FlushRestored);
      run, steps, cur := run + [cut] + [flushed], steps + [CutRestored] + [FlushRestored], flushed;
    } else {
      var next := cur.(phase := Restored);
      assert Next(cur, next, NothingLogged) by { NothingToLay(cur); }
      NextKeeps(cur, next, NothingLogged);
      LeadsOneMore(run, steps, next, NothingLogged);
      run, steps, cur := run + [next], steps + [NothingLogged], next;
    }
    var served := ServeRestored(cur);
    NextKeeps(cur, served, Serve);
    LeadsOneMore(run, steps, served, Serve);
    run, steps := run + [served], steps + [Serve];
    ServedIsKept(served);
  }

  lemma OpenIsEnabled(s: State)
    requires s.phase == Closed
    ensures Next(s, s.(phase := Restoring(0, {})), Open)
  {
  }

  lemma RestoreOne(s: State) returns (t: State, step: Step)
    requires s.phase.Restoring? && s.phase.batch < |s.wal| && s.phase.done <= s.wal[s.phase.batch].Keys
    ensures Next(s, t, step) && t.phase.Restoring?
    ensures t == s.(file := t.file, torn := t.torn, phase := t.phase)
    ensures (t.phase.batch == s.phase.batch && s.phase.done < t.phase.done <= s.wal[s.phase.batch].Keys)
         || (t.phase.batch == s.phase.batch + 1 && t.phase.done == {})
  {
    var left := s.wal[s.phase.batch].Keys - s.phase.done;
    if left == {} {
      assert forall id <- s.wal[s.phase.batch].Keys :: id !in left;
      assert s.phase.done == s.wal[s.phase.batch].Keys;
      t, step := s.(phase := Restoring(s.phase.batch + 1, {})), NextBatch;
    } else {
      var id :| id in left;
      step := RestorePage(id);
      t := s.(file := s.file[id := s.wal[s.phase.batch][id]], torn := s.torn + {id},
              phase := s.phase.(done := s.phase.done + {id}));
    }
  }

  lemma FlushCut(s: State) returns (cut: State, flushed: State)
    requires s.phase.Restoring? && s.phase.batch == |s.wal| && s.wal != []
    ensures Next(s, cut, CutRestored) && Next(cut, flushed, FlushRestored)
    ensures flushed == s.(file := flushed.file, torn := {}, phase := Restored)
  {
    var file := UpTo(s.file, Count(s.file));
    cut := s.(phase := Trimmed, file := file, torn := s.torn + (s.file.Keys - file.Keys));
    flushed := cut.(phase := Restored, torn := {});
  }

  lemma NothingToLay(s: State)
    requires s.phase.Restoring? && s.wal == []
    ensures Next(s, s.(phase := Restored), NothingLogged)
  {
  }

  lemma ServeRestored(s: State) returns (served: State)
    requires s.phase == Restored && s.uncut.None?
    ensures Next(s, served, Serve)
    ensures served.phase == Idle && !served.poisoned
    ensures served.base == s.base && served.attempts == s.attempts
  {
    served := s.(phase := Idle, wal := [], committed := View(s.file), unwritten := map[], poisoned := false);
  }

  lemma LeadsNowhere(s: State)
    ensures Leads([s], [])
  {
  }

  lemma ServedIsKept(s: State)
    requires Inv(s) && s.phase == Idle
    ensures s.committed == Kept(s.base, s.attempts)
  {
    hide Kept, DiskOk, Coherent;
  }

  // ----------------------------------------------------- a batch can go through

  lemma LeadsThrough(run: seq<State>, steps: seq<Step>, more: seq<State>, moreSteps: seq<Step>)
    requires Leads(run, steps) && Leads(more, moreSteps) && run[|run| - 1] == more[0]
    ensures Leads(run + more[1..], steps + moreSteps)
    ensures (run + more[1..])[|run| + |more| - 2] == more[|more| - 1]
  {
    hide Next;
    var all, allSteps := run + more[1..], steps + moreSteps;
    forall i | 0 <= i < |allSteps| ensures Next(all[i], all[i + 1], allSteps[i]) {
      if i >= |steps| {
        assert Next(more[i - |steps|], more[i - |steps| + 1], moreSteps[i - |steps|]);
        assert all[i] == more[i - |steps|];
      }
    }
  }

  lemma TwoSteps(s: State, t: State, u: State, a: Step, b: Step)
    requires Next(s, t, a) && Next(t, u, b)
    ensures Leads([s, t, u], [a, b])
  {
    hide Next;
  }

  /** From every state in which the writer is free, every batch that fits can be logged,
      published and returned `Ok`: and then it is what is served. */
  lemma BatchGoesThrough(s: State, batch: Batch) returns (run: seq<State>, steps: seq<Step>)
    requires Inv(s) && s.phase == Idle && !s.poisoned && Fits(s.committed, batch)
    ensures Leads(run, steps) && run[0] == s && steps == [Log(batch), LogOk, Publish, Return]
    ensures var t := run[4];
            && t.phase == Idle && !t.poisoned && t.committed == Apply(s.committed, batch)
            && t.attempts == s.attempts + [Attempt(batch, Ok, true)] && t.base == s.base
            && t.wal == s.wal + [batch]
  {
    var logged, durable := Logs(s, batch);
    var published, returned := Publishes(durable);
    TwoSteps(s, logged, durable, Log(batch), LogOk);
    TwoSteps(durable, published, returned, Publish, Return);
    hide Next, Inv, Fits;
    LeadsThrough([s, logged, durable], [Log(batch), LogOk], [durable, published, returned], [Publish, Return]);
    run, steps := [s, logged, durable] + [durable, published, returned][1..], [Log(batch), LogOk] + [Publish, Return];
    hide Leads;
    assert run[4] == returned;
    assert durable.attempts[..|s.attempts|] == s.attempts && Last(durable) == Attempt(batch, Running, true);
  }

  lemma Logs(s: State, batch: Batch) returns (logged: State, durable: State)
    requires s.phase == Idle && !s.poisoned && Fits(s.committed, batch)
    ensures Next(s, logged, Log(batch)) && Next(logged, durable, LogOk)
    ensures durable == s.(phase := Durable, wal := s.wal + [batch], uncut := None, extra := false,
                          attempts := s.attempts + [Attempt(batch, Running, true)])
  {
    hide Fits;
    logged := s.(phase := Logging, extra := true, attempts := s.attempts + [Attempt(batch, Running, false)]);
    durable := s.(phase := Durable, wal := s.wal + [batch], uncut := None, extra := false,
                  attempts := s.attempts + [Attempt(batch, Running, true)]);
    assert WithLast(logged, Last(logged).(kept := true)) == durable.attempts;
  }

  lemma Publishes(s: State) returns (published: State, returned: State)
    requires s.phase == Durable && s.attempts != []
    ensures Next(s, published, Publish) && Next(published, returned, Return)
    ensures returned == s.(phase := Idle, committed := Apply(s.committed, Last(s).batch), unwritten := returned.unwritten,
                           attempts := WithLast(s, Last(s).(outcome := Ok)))
  {
    hide Apply, Count;
    var committed := Apply(s.committed, Last(s).batch);
    published := s.(phase := Published, committed := committed,
                    unwritten := UpTo(s.unwritten + Last(s).batch, Count(committed)));
    returned := published.(phase := Idle, attempts := WithLast(s, Last(s).(outcome := Ok)));
  }

  /** And every one can fail to be logged and be undone: nothing served has changed, and
      the writer is free. */
  lemma BatchCanFail(s: State, batch: Batch) returns (run: seq<State>, steps: seq<Step>)
    requires Inv(s) && s.phase == Idle && !s.poisoned && Fits(s.committed, batch)
    ensures Leads(run, steps) && run[0] == s && steps == [Log(batch), LogFails, UndoOk]
    ensures var t := run[3];
            && t.phase == Idle && !t.poisoned && t.committed == s.committed && t.wal == s.wal
            && t.attempts == s.attempts + [Attempt(batch, Err, false)] && t.base == s.base
  {
    hide Fits, Inv;
    var logging := s.(phase := Logging, extra := true, attempts := s.attempts + [Attempt(batch, Running, false)]);
    var undoing := logging.(phase := Undoing);
    var undone := s.(phase := Idle, uncut := None, extra := false,
                     attempts := s.attempts + [Attempt(batch, Err, false)]);
    assert Next(s, logging, Log(batch)) && Next(logging, undoing, LogFails);
    assert WithLast(undoing, Last(undoing).(outcome := Err)) == undone.attempts;
    assert Next(undoing, undone, UndoOk);
    TwoSteps(s, logging, undoing, Log(batch), LogFails);
    hide Next;
    LeadsOneMore([s, logging, undoing], [Log(batch), LogFails], undone, UndoOk);
    run, steps := [s, logging, undoing] + [undone], [Log(batch), LogFails] + [UndoOk];
  }

  /** From every state a checkpoint may begin in, one that meets no trouble ends: the
      file is the last commit, and the log is empty. */
  lemma CheckpointEnds(s: State) returns (run: seq<State>, steps: seq<Step>)
    requires Inv(s) && (s.phase == Published || (s.phase == Idle && !s.poisoned))
    ensures Leads(run, steps) && run[0] == s
    ensures var t := run[|run| - 1];
            && t.phase == s.phase && t.committed == s.committed && t.attempts == s.attempts && t.base == s.base
            && t.wal == [] && t.uncut == None && t.unwritten == map[] && t.torn == {} && View(t.file) == t.committed
  {
    hide Inv, Leads, Next, View;
    var cur := s.(phase := WritingBack(s.phase == Published, {}));
    assert Next(s, cur, StartCheckpoint) by { Begins(s); }
    NextKeeps(s, cur, StartCheckpoint);
    LeadsNowhere(s);
    LeadsOneMore([s], [], cur, StartCheckpoint);
    run, steps := [s] + [cur], [] + [StartCheckpoint];
    while cur.phase.written != cur.unwritten.Keys
      invariant Leads(run, steps) && |run| > 0 && run[0] == s && run[|run| - 1] == cur && Inv(cur)
      invariant cur.phase.WritingBack? && cur.phase.written <= cur.unwritten.Keys
      invariant cur == s.(file := cur.file, torn := cur.torn,
                          phase := WritingBack(s.phase == Published, cur.phase.written))
      decreases cur.unwritten.Keys - cur.phase.written
    {
      var id := SomeLeft(cur.phase.written, cur.unwritten.Keys);
      var next := cur.(file := cur.file[id := cur.unwritten[id]], torn := cur.torn + {id},
                       phase := cur.phase.(written := cur.phase.written + {id}));
      assert Next(cur, next, WriteBack(id)) by { Writes(cur, id); }
      NextKeeps(cur, next, WriteBack(id));
      LeadsOneMore(run, steps, next, WriteBack(id));
      run, steps, cur := run + [next], steps + [WriteBack(id)], next;
    }
    if cur.unwritten != map[] {
      var cut := Cuts(cur);
      NextKeeps(cur, cut, CutFile);
      LeadsOneMore(run, steps, cut, CutFile);
      run, steps, cur := run + [cut], steps + [CutFile], cut;
    }
    var flushed, ended := Ends(cur);
    NextKeeps(cur, flushed, Flush);
    NextKeeps(flushed, ended, CutLog);
    LeadsOneMore(run, steps, flushed, Flush);
    LeadsOneMore(run + [flushed], steps + [Flush], ended, CutLog);
    run, steps := run + [flushed] + [ended], steps + [Flush] + [CutLog];
    EndedIsWhole(ended);
  }

  lemma Begins(s: State)
    requires s.phase == Published || (s.phase == Idle && !s.poisoned)
    ensures Next(s, s.(phase := WritingBack(s.phase == Published, {})), StartCheckpoint)
  {
  }

  lemma SomeLeft(written: set<PageId>, all: set<PageId>) returns (id: PageId)
    requires written <= all && written != all
    ensures id in all && id !in written
  {
    assert !(all <= written);
    id :| id in all && id !in written;
  }

  lemma Writes(s: State, id: PageId)
    requires s.phase.WritingBack? && id in s.unwritten
    ensures Next(s, s.(file := s.file[id := s.unwritten[id]], torn := s.torn + {id},
                       phase := s.phase.(written := s.phase.written + {id})), WriteBack(id))
  {
  }

  lemma Cuts(s: State) returns (cut: State)
    requires s.phase.WritingBack? && s.phase.written == s.unwritten.Keys && s.unwritten != map[]
    ensures Next(s, cut, CutFile) && cut == s.(file := cut.file, torn := cut.torn)
  {
    var file := UpTo(s.file, Count(s.committed));
    cut := s.(file := file, torn := s.torn + (s.file.Keys - file.Keys));
    assert s.unwritten.Keys != {} by {
      var id :| id in s.unwritten;
      assert id in s.unwritten.Keys;
    }
  }

  lemma Ends(s: State) returns (flushed: State, ended: State)
    requires s.phase.WritingBack? && s.phase.written == s.unwritten.Keys
    ensures Next(s, flushed, Flush) && Next(flushed, ended, CutLog)
    ensures ended == s.(phase := Back(s.phase.inside), torn := {}, unwritten := map[], wal := [], uncut := None)
  {
    flushed := s.(phase := WrittenBack(s.phase.inside), torn := {}, unwritten := map[]);
    ended := flushed.(phase := Back(s.phase.inside), wal := [], uncut := None);
  }

  lemma EndedIsWhole(s: State)
    requires Inv(s) && (s.phase == Published || s.phase == Idle) && s.unwritten == map[]
    ensures View(s.file) == s.committed
  {
    hide Kept, DiskOk, View, Apply, Logged;
    FileIsCommitted(s.committed, s.file);
  }

  // ------------------------------------------------------------- and trouble can come

  /** Whenever the database is open it can go down: with the unflushed pages turned out
      any way, a cut not flushed undone, or the bytes of a batch being logged whole. */
  lemma CrashCanCome(s: State, file: Pages, reappears: bool, whole: bool) returns (t: State)
    requires s.phase != Closed && AlikeBut(s.file, file, s.torn)
    requires (reappears ==> s.uncut.Some? && !whole) && (whole ==> s.extra && s.attempts != [])
    ensures Next(s, t, Crash(file, reappears, whole)) && t.phase == Closed && t.file == file
    ensures t.wal == if reappears then s.uncut.value else if whole then s.wal + [Last(s).batch] else s.wal
  {
    hide AlikeBut;
    t := s.(file := file, torn := {}, uncut := None, extra := false, phase := Closed,
            committed := map[], unwritten := map[], poisoned := false,
            wal := if reappears then s.uncut.value else if whole then s.wal + [Last(s).batch] else s.wal,
            attempts := if (s.attempts != [] && Last(s).outcome.Running?) || whole
                        then WithLast(s, Last(s).(outcome := Unsure, kept := Last(s).kept || whole))
                        else s.attempts);
  }

  /** A log, an undo and a checkpoint can fail at every point, and a cut of the log go
      unflushed. */
  lemma TroubleCanCome(s: State)
    ensures s.phase == Logging ==> exists t :: Next(s, t, LogFails)
    ensures s.phase == Undoing && s.attempts != [] ==> exists t :: Next(s, t, UndoFails) && t.poisoned && t.extra == s.extra
    ensures s.phase.WritingBack? ==> exists t :: Next(s, t, CheckpointFails)
    ensures s.phase.WrittenBack? ==> exists t :: Next(s, t, CutLogFails)
    ensures s.phase.WrittenBack? || s.phase == Restored ==>
              exists t :: Next(s, t, CutLogUnflushed) && t.uncut == Some(if s.uncut.Some? then s.uncut.value else s.wal)
  {
    hide Fits, Apply, Count, AlikeBut, View, UpTo;
    if s.phase == Logging {
      assert Next(s, s.(phase := Undoing), LogFails);
    } else if s.phase == Undoing && s.attempts != [] {
      assert Next(s, s.(phase := Idle, poisoned := true, attempts := WithLast(s, Last(s).(outcome := Unsure))), UndoFails);
    } else if s.phase.WritingBack? {
      assert Next(s, s.(phase := Back(s.phase.inside)), CheckpointFails);
    } else if s.phase.WrittenBack? || s.phase == Restored {
      if s.phase.WrittenBack? { assert Next(s, s.(phase := Back(s.phase.inside)), CutLogFails); }
      assert Next(s, s.(phase := if s.phase == Restored then Restored else Back(s.phase.inside), wal := [],
                        uncut := Some(if s.uncut.Some? then s.uncut.value else s.wal)), CutLogUnflushed);
    }
  }
}
