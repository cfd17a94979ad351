/** What survives a power loss, and how long a write can stay unsaved. */
module Durability {
  import opened ByteStrings
  import opened Store
  import opened Loader
  import opened Protocol
  import opened ServerModel
  import opened StoreRuns

  // ---------------------------------------------------------------------------------------------
  // Crash recovery

  predicate DeadlineReached(s: State, e: Event) {
    e.Turn? && s.next != 0 && s.next - e.now <= 0
  }

  /** The event saves the persistent database after everything it did. */
  predicate SavesAfter(e: Event) {
    || (e.Reboot? && e.codes.persist >= 0)
    || ((RequestOf(e).Commit? || RequestOf(e).Reload?) && WorldOf(e).codes.persist >= 0)
  }

  /** The event saves the persistent database before it serves its request. */
  predicate SavesBefore(s: State, e: Event) {
    DeadlineReached(s, e) && e.codes.persist >= 0
  }

  lemma RequestSaved(cfg: Config, st: Stores, req: Request, w: World)
    ensures var r := StoresAfter(cfg, st, req, w).persist;
            r.saved == if (req.Commit? || req.Reload?) && w.codes.persist >= 0 then r.cur else st.persist.saved
  {
    if req.Reload? {
      ApplyLeavesSaved(cfg.temporary, st, AllDefs(Paths(cfg.source), w.files), true);
    }
  }

  lemma BootSaved(cfg: Config, saved: map<Bytes, Bytes>, e: Event)
    requires e.Reboot?
    ensures var r := Boot(cfg, saved, e.now, e.files, e.codes).stores.persist;
            r.saved == if e.codes.persist >= 0 then r.cur else saved
  {
    ApplyLeavesSaved(cfg.temporary, Stores(Db(saved, saved), Db(map[], map[])), AllDefs(Paths(cfg.source), e.files), false);
  }

  lemma StepSaved(cfg: Config, s: State, e: Event)
    requires ValidEvent(cfg, s, e)
    ensures var r := Step(cfg, s, e).stores.persist;
            r.saved == if SavesAfter(e) then r.cur
                       else if SavesBefore(s, e) then s.stores.persist.cur
                       else s.stores.persist.saved
  {
    if e.Reboot? {
      BootSaved(cfg, s.stores.persist.saved, e);
    } else {
      StepStores(cfg, s, e);
      RequestSaved(cfg, AtTop(cfg, s, e).stores, RequestOf(e), WorldOf(e));
    }
  }

  /** How many events of a run would survive a power loss at its end. */
  ghost function Durable(cfg: Config, s: State, es: seq<Event>): (n: nat)
    requires ValidRun(cfg, s, es)
    ensures n <= |es|
    decreases |es|
  {
    if es == [] then 0
    else
      RunSnoc(cfg, s, es);
      var n := |es| - 1;
      if SavesAfter(es[n]) then n + 1
      else if SavesBefore(Run(cfg, s, es[..n]), es[n]) then n
      else Durable(cfg, s, es[..n])
  }

  lemma RunPrefix(cfg: Config, s: State, es: seq<Event>, i: nat)
    requires i <= |es| && ValidRun(cfg, s, es)
    ensures ValidRun(cfg, s, es[..i])
  {
    assert es == es[..i] + es[i..];
    RunAppend(cfg, s, es[..i], es[i..]);
  }

  /** One more event, seen from the saved map: it is the map after the whole run, the map before the
      event, or what it was. */
  lemma {:induction false} SavedMapIsPrefix(cfg: Config, s: State, es: seq<Event>)
    requires ValidRun(cfg, s, es) && s.stores.persist.saved == s.stores.persist.cur
    ensures var n := Durable(cfg, s, es);
            && ValidRun(cfg, s, es[..n])
            && Run(cfg, s, es).stores.persist.saved == Run(cfg, s, es[..n]).stores.persist.cur
    decreases |es|
  {
    var d := Durable(cfg, s, es);
    if es == [] {
      assert es[..0] == es;
    } else {
      var n := |es| - 1;
      RunSnoc(cfg, s, es);
      StepSaved(cfg, Run(cfg, s, es[..n]), es[n]);
      if SavesAfter(es[n]) {
        assert es[..d] == es;
      } else if !SavesBefore(Run(cfg, s, es[..n]), es[n]) {
        SavedMapIsPrefix(cfg, s, es[..n]);
        assert es[..n][..d] == es[..d];
      }
    }
  }

  lemma DurableSnoc(cfg: Config, s: State, es: seq<Event>, pre: seq<Event>, e: Event)
    requires es == pre + [e] && ValidRun(cfg, s, es)
    ensures ValidRun(cfg, s, pre)
    ensures Durable(cfg, s, es)
         == if SavesAfter(e) then |es| else if SavesBefore(Run(cfg, s, pre), e) then |pre| else Durable(cfg, s, pre)
  {
    RunSnoc(cfg, s, es);
    assert es[..|es| - 1] == pre;
  }

  /** A successful commit at event `j` is inside the durable prefix. */
  lemma {:induction false} DurableCovers(cfg: Config, s: State, es: seq<Event>, j: nat)
    requires ValidRun(cfg, s, es) && j < |es| && SavesAfter(es[j])
    ensures j < Durable(cfg, s, es)
    decreases |es|
  {
    var n := |es| - 1;
    assert es == es[..n] + [es[n]];
    DurableSnoc(cfg, s, es, es[..n], es[n]);
    if j < n {
      DurableCovers(cfg, s, es[..n], j);
    }
  }

  /** So is everything before a deadline commit. */
  lemma {:induction false} DurableReaches(cfg: Config, s: State, es: seq<Event>, j: nat, at: State)
    requires ValidRun(cfg, s, es) && j < |es| && ValidRun(cfg, s, es[..j])
    requires at == Run(cfg, s, es[..j]) && SavesBefore(at, es[j])
    ensures j <= Durable(cfg, s, es)
    decreases |es|
  {
    var n := |es| - 1;
    assert es == es[..n] + [es[n]];
    DurableSnoc(cfg, s, es, es[..n], es[n]);
    if j < n {
      assert es[..n][..j] == es[..j];
      DurableReaches(cfg, s, es[..n], j, at);
    }
  }

  /** In every run, reboots included, the saved persistent map is the persistent map as it stood
      after a prefix of the run, and that prefix covers everything up to the last successful commit. */
  lemma SavedIsPrefix(cfg: Config, s: State, es: seq<Event>)
    requires ValidRun(cfg, s, es) && s.stores.persist.saved == s.stores.persist.cur
    ensures exists n | 0 <= n <= |es| && ValidRun(cfg, s, es[..n]) ::
              && Run(cfg, s, es).stores.persist.saved == Run(cfg, s, es[..n]).stores.persist.cur
              && (forall j :: 0 <= j < |es| && SavesAfter(es[j]) ==> j < n)
              && (forall j :: 0 <= j < |es| && ValidRun(cfg, s, es[..j]) && SavesBefore(Run(cfg, s, es[..j]), es[j]) ==> j <= n)
  {
    SavedMapIsPrefix(cfg, s, es);
    forall j | 0 <= j < |es| && SavesAfter(es[j])
      ensures j < Durable(cfg, s, es)
    {
      DurableCovers(cfg, s, es, j);
    }
    forall j | 0 <= j < |es| && ValidRun(cfg, s, es[..j]) && SavesBefore(Run(cfg, s, es[..j]), es[j])
      ensures j <= Durable(cfg, s, es)
    {
      DurableReaches(cfg, s, es, j, Run(cfg, s, es[..j]));
    }
  }

  /** After a power loss at any point and the following start-up, every key holds what it held after
      the durable prefix if it is persistent and present there, and otherwise its first valid default;
      keys of the temporary database are gone unless the defaults define them. */
  lemma CrashRecovery(cfg: Config, s: State, es: seq<Event>, e: Event, k: Bytes)
    requires ValidRun(cfg, s, es) && e.Reboot? && e.now >= 0
    requires StoreInvariant(cfg, s.stores) && s.stores.persist.saved == s.stores.persist.cur
    ensures ValidRun(cfg, s, es[..Durable(cfg, s, es)])
    ensures var base := Run(cfg, s, es[..Durable(cfg, s, es)]).stores.persist.cur;
            var default := FirstDef(cfg.temporary, AllDefs(Paths(cfg.source), e.files), k);
            var after := Step(cfg, Run(cfg, s, es), e).stores;
            Lookup(after, k) == (if k in base && (base[k] != [] || default.None?) then Some(base[k])
                                 else default)
  {
    SavedMapIsPrefix(cfg, s, es);
    RunKeepsInvariant(cfg, s, es);
    var saved := Run(cfg, s, es).stores.persist.saved;
    var st := Stores(Db(saved, saved), Db(map[], map[]));
    assert st.View() == saved;
    LoadMeaning(cfg.temporary, st, cfg.source, e.files, false, e.codes, k);
  }

  // ---------------------------------------------------------------------------------------------
  // Bounded delay

  ghost predicate Unsaved(st: Stores) {
    st.persist.cur != st.persist.saved || st.mem.cur != st.mem.saved
  }

  predicate CodesOk(codes: CommitCodes) {
    codes.persist >= 0 && codes.mem >= 0
  }

  predicate CommitsSucceed(e: Event) {
    (e.More? || CodesOk(e.codes)) && CodesOk(WorldOf(e).codes)
  }

  /** The clock reading when the handler of the oldest write not yet covered by a commit returned. */
  ghost function OldestWrite(cfg: Config, s: State, es: seq<Event>): Option<int>
    requires ValidRun(cfg, s, es)
    decreases |es|
  {
    if es == [] then None
    else
      RunSnoc(cfg, s, es);
      var n := |es| - 1;
      var m, e := Run(cfg, s, es[..n]), es[n];
      OldestAfter(cfg, m, e, OldestWrite(cfg, s, es[..n]))
  }

  ghost function OldestAfter(cfg: Config, s: State, e: Event, oldest: Option<int>): Option<int> {
    if e.Reboot? || RequestOf(e).Commit? || RequestOf(e).Reload? then None
    else
      var kept := if DeadlineReached(s, e) then None else oldest;
      if kept.None? && Dirties(cfg, AtTop(cfg, s, e).stores, RequestOf(e)) then Some(e.io.now) else kept
  }

  function Delay(cfg: Config): nat {
    if cfg.interval == 0 then 1 else cfg.interval
  }

  /** A deadline is never further off than `Delay`, and a write that is not saved has one, at most
      `Delay` after its handler returned. */
  ghost predicate Scheduled(cfg: Config, s: State, oldest: Option<int>) {
    && 0 <= s.clock && 0 <= s.next <= s.clock + Delay(cfg)
    && (Unsaved(s.stores) ==> oldest.Some?)
    && (oldest.Some? ==> 0 < s.next <= oldest.value + Delay(cfg))
  }

  lemma CleanRequestLeavesSaved(cfg: Config, st: Stores, req: Request, w: World)
    requires StoreInvariant(cfg, st) && CodesOk(w.codes)
    ensures var r := StoresAfter(cfg, st, req, w);
            && (req.Commit? || req.Reload? ==> !Unsaved(r))
            && (!req.Commit? && !req.Reload? && !Dirties(cfg, st, req) ==> r == st)
  {
    if req.Reload? {
      LoadCommits(cfg.temporary, st, cfg.source, w.files, true, w.codes);
      LoadKeepsInvariant(cfg, st, w.files, true, w.codes);
    }
  }

  lemma TopCommits(cfg: Config, s: State, e: Event)
    requires !e.Reboot? && StoreInvariant(cfg, s.stores)
    ensures var top := AtTop(cfg, s, e);
            && (DeadlineReached(s, e) && CodesOk(e.codes) ==> !Unsaved(top.stores))
            && (DeadlineReached(s, e) ==> top.next == 0)
            && (!DeadlineReached(s, e) ==> top.stores == s.stores && top.next == s.next)
            && top.clock == if e.Turn? then e.now else s.clock
  {
  }

  lemma EventKeepsScheduled(cfg: Config, s: State, e: Event, oldest: Option<int>)
    requires ValidEvent(cfg, s, e) && !e.Reboot? && CommitsSucceed(e) && StoreInvariant(cfg, s.stores)
    requires Scheduled(cfg, s, oldest)
    ensures Scheduled(cfg, Step(cfg, s, e), OldestAfter(cfg, s, e, oldest))
  {
    TopCommits(cfg, s, e);
    TopKeepsInvariant(cfg, s, e);
    StepStores(cfg, s, e);
    CleanRequestLeavesSaved(cfg, AtTop(cfg, s, e).stores, RequestOf(e), WorldOf(e));
  }

  lemma BootScheduled(cfg: Config, s: State, e: Event)
    requires e.Reboot? && e.now >= 0 && CommitsSucceed(e) && StoreInvariant(cfg, s.stores)
    ensures Scheduled(cfg, Step(cfg, s, e), None)
  {
    var saved := s.stores.persist.saved;
    var st := Stores(Db(saved, saved), Db(map[], map[]));
    LoadCommits(cfg.temporary, st, cfg.source, e.files, false, e.codes);
    LoadKeepsInvariant(cfg, st, e.files, false, e.codes);
  }

  /** In every run whose commits succeed, while a write is unsaved the deadline is set and lies at
      most max(interval, 1) seconds after the oldest unsaved write's handler returned. */
  lemma {:induction false} BoundedDelay(cfg: Config, s: State, es: seq<Event>)
    requires ValidRun(cfg, s, es) && StoreInvariant(cfg, s.stores) && Scheduled(cfg, s, None)
    requires forall e :: e in es ==> CommitsSucceed(e)
    ensures Scheduled(cfg, Run(cfg, s, es), OldestWrite(cfg, s, es))
    decreases |es|
  {
    if es != [] {
      var n := |es| - 1;
      RunSnoc(cfg, s, es);
      var m := Run(cfg, s, es[..n]);
      BoundedDelay(cfg, s, es[..n]);
      RunKeepsInvariant(cfg, s, es[..n]);
      assert es[n] in es;
      if !es[n].Reboot? {
        EventKeepsScheduled(cfg, m, es[n], OldestWrite(cfg, s, es[..n]));
      } else {
        BootScheduled(cfg, m, es[n]);
      }
    }
  }

  /** When the loop is about to wait: no unsaved write has outlived its bound, the wait is never for
      ever while something is unsaved, and it ends by the bound. */
  lemma WaitIsBounded(cfg: Config, s: State, es: seq<Event>, e: Event)
    requires ValidRun(cfg, s, es) && StoreInvariant(cfg, s.stores) && Scheduled(cfg, s, None)
    requires forall x :: x in es ==> CommitsSucceed(x)
    requires e.Turn? && CodesOk(e.codes)
    ensures var top := AtTop(cfg, Run(cfg, s, es), e);
            Unsaved(top.stores) ==>
              && OldestWrite(cfg, s, es).Some?
              && e.now < OldestWrite(cfg, s, es).value + Delay(cfg)
              && 0 < Timeout(top) <= (OldestWrite(cfg, s, es).value + Delay(cfg) - e.now) * 1000
  {
    BoundedDelay(cfg, s, es);
    RunKeepsInvariant(cfg, s, es);
    TopCommits(cfg, Run(cfg, s, es), e);
  }

  /** A deadline once set stays where it is, whatever is served, until it is reached. */
  lemma {:induction false} NeverPostponed(cfg: Config, s: State, es: seq<Event>)
    requires ValidRun(cfg, s, es) && s.next != 0
    requires forall e :: e in es ==> !e.Reboot? && (e.Turn? ==> e.now < s.next)
    ensures Run(cfg, s, es).next == s.next
    decreases |es|
  {
    if es != [] {
      assert es[0] in es;
      StepStores(cfg, s, es[0]);
      NeverPostponed(cfg, Step(cfg, s, es[0]), es[1..]);
    }
  }

  // ---------------------------------------------------------------------------------------------
  // Commits are delayed

  /** The event writes while no deadline is pending. */
  ghost predicate SetsDeadline(cfg: Config, s: State, e: Event) {
    && !e.Reboot? && e.io.Accept?
    && AtTop(cfg, s, e).next == 0 && Dirties(cfg, AtTop(cfg, s, e).stores, RequestOf(e))
  }

  /** A write without a deadline sets one, the commit interval after its handler returned and never 0;
      no other event sets or moves one. */
  lemma DeadlineAfter(cfg: Config, s: State, e: Event)
    requires ValidEvent(cfg, s, e) && s.clock >= 0
    ensures var r := Step(cfg, s, e);
            && r.clock >= 0
            && (SetsDeadline(cfg, s, e) ==>
                  r.clock == e.io.now && r.next == if e.io.now + cfg.interval == 0 then 1 else e.io.now + cfg.interval)
            && (!SetsDeadline(cfg, s, e) ==> r.next in {0, s.next})
  {
    if !e.Reboot? {
      StepStores(cfg, s, e);
    }
  }

  /** In every run from a state without a deadline, a pending deadline was set by a write of the run, at
      least the commit interval after its handler returned. */
  lemma {:induction false} DeadlineOrigin(cfg: Config, s: State, es: seq<Event>) returns (j: int)
    requires ValidRun(cfg, s, es) && s.clock >= 0 && s.next == 0
    ensures Run(cfg, s, es).clock >= 0
    ensures Run(cfg, s, es).next != 0 ==>
              && 0 <= j < |es| && ValidRun(cfg, s, es[..j]) && SetsDeadline(cfg, Run(cfg, s, es[..j]), es[j])
              && es[j].io.now >= 0 && Run(cfg, s, es).next >= es[j].io.now + cfg.interval
    decreases |es|
  {
    j := 0;
    if es != [] {
      var n := |es| - 1;
      RunSnoc(cfg, s, es);
      var last := Run(cfg, s, es[..n]);
      j := DeadlineOrigin(cfg, s, es[..n]);
      DeadlineAfter(cfg, last, es[n]);
      if SetsDeadline(cfg, last, es[n]) {
        j := n;
      } else if last.next != 0 {
        assert es[..n][..j] == es[..j] && es[..n][j] == es[j];
      }
    }
  }

  /** So when the loop commits because a deadline is reached, at least the commit interval has passed
      since the write that set it. */
  lemma CommitIsDelayed(cfg: Config, s: State, es: seq<Event>, e: Event) returns (j: int)
    requires ValidRun(cfg, s, es) && s.clock >= 0 && s.next == 0
    requires DeadlineReached(Run(cfg, s, es), e)
    ensures 0 <= j < |es| && ValidRun(cfg, s, es[..j]) && SetsDeadline(cfg, Run(cfg, s, es[..j]), es[j])
    ensures e.now - es[j].io.now >= cfg.interval
  {
    j := DeadlineOrigin(cfg, s, es);
  }

  /** The wait, in milliseconds, is exactly as long as it takes to reach the deadline, and for ever
      without one. */
  lemma WaitReachesDeadline(s: State, e: Event)
    requires e.Turn? && s.clock <= e.now
    ensures DeadlineReached(s, e) <==> s.next != 0 && (e.now - s.clock) * 1000 >= Timeout(s)
    ensures s.next == 0 <==> Timeout(s) == -1
  {
  }

  // ---------------------------------------------------------------------------------------------
  // Writes left without a deadline

  /** Something is unsaved and no deadline is set, so the loop may wait for ever. */
  ghost predicate Stranded(s: State) {
    Unsaved(s.stores) && s.next == 0
  }

  /** A commit fails on a database that has changes. */
  ghost predicate FailsOn(st: Stores, codes: CommitCodes) {
    || (codes.persist < 0 && st.persist.cur != st.persist.saved)
    || (codes.mem < 0 && st.mem.cur != st.mem.saved)
  }

  /** The databases a reload commits. */
  function Reloaded(cfg: Config, st: Stores, files: Files): Stores {
    ApplyDefs(cfg.temporary, st, AllDefs(Paths(cfg.source), files), true)
  }

  /** The databases the start-up load commits. */
  function BootLoaded(cfg: Config, saved: map<Bytes, Bytes>, files: Files): Stores {
    ApplyDefs(cfg.temporary, Stores(Db(saved, saved), Db(map[], map[])), AllDefs(Paths(cfg.source), files), false)
  }

  /** The event leaves a write without a deadline: no deadline is left after the top of the loop, and
      the commit of a request, of a reload, or of the deadline when nothing new is written, fails on a
      changed database; or the commit of a start-up does. */
  ghost predicate Strands(cfg: Config, s: State, e: Event) {
    if e.Reboot? then FailsOn(BootLoaded(cfg, s.stores.persist.saved, e.files), e.codes)
    else
      var top, req, codes := AtTop(cfg, s, e), RequestOf(e), WorldOf(e).codes;
      top.next == 0
      && if req.Commit? then FailsOn(top.stores, codes)
         else if req.Reload? then FailsOn(Reloaded(cfg, top.stores, WorldOf(e).files), codes)
         else DeadlineReached(s, e) && FailsOn(s.stores, e.codes) && !Dirties(cfg, top.stores, req)
  }

  /** The event neither commits on request nor writes anything. */
  ghost predicate Idles(cfg: Config, s: State, e: Event) {
    !e.Reboot? && !RequestOf(e).Commit? && !RequestOf(e).Reload? && !Dirties(cfg, AtTop(cfg, s, e).stores, RequestOf(e))
  }

  lemma CommitLeavesUnsaved(cfg: Config, st: Stores, codes: CommitCodes)
    requires StoreInvariant(cfg, st)
    ensures Unsaved(KvCommit(cfg.temporary, st, codes).stores) <==> FailsOn(st, codes)
  {
  }

  lemma RequestLeavesUnsaved(cfg: Config, st: Stores, req: Request, w: World)
    requires StoreInvariant(cfg, st)
    ensures var r := StoresAfter(cfg, st, req, w);
            && (req.Commit? ==> (Unsaved(r) <==> FailsOn(st, w.codes)))
            && (req.Reload? ==> (Unsaved(r) <==> FailsOn(Reloaded(cfg, st, w.files), w.codes)))
            && (!req.Commit? && !req.Reload? && !Dirties(cfg, st, req) ==> r == st)
  {
    if req.Commit? {
      CommitLeavesUnsaved(cfg, st, w.codes);
    } else if req.Reload? {
      ApplyKeepsInvariant(cfg, st, AllDefs(Paths(cfg.source), w.files), true);
      CommitLeavesUnsaved(cfg, Reloaded(cfg, st, w.files), w.codes);
    }
  }

  lemma TopStrands(cfg: Config, s: State, e: Event)
    requires !e.Reboot? && StoreInvariant(cfg, s.stores)
    ensures Stranded(AtTop(cfg, s, e)) <==> if DeadlineReached(s, e) then FailsOn(s.stores, e.codes) else Stranded(s)
  {
    if e.Turn? {
      CommitLeavesUnsaved(cfg, s.stores, e.codes);
    }
  }

  /** Start-up leaves a default unsaved and without a deadline exactly when its commit fails on a
      database that the defaults changed. */
  lemma BootStrands(cfg: Config, saved: map<Bytes, Bytes>, now: int, files: Files, codes: CommitCodes)
    requires WellFormedMap(saved, true)
    ensures Stranded(Boot(cfg, saved, now, files, codes)) <==> FailsOn(BootLoaded(cfg, saved, files), codes)
  {
    ApplyKeepsInvariant(cfg, Stores(Db(saved, saved), Db(map[], map[])), AllDefs(Paths(cfg.source), files), false);
    CommitLeavesUnsaved(cfg, BootLoaded(cfg, saved, files), codes);
  }

  /** After any event a write is stranded exactly when the event strands one, or one was stranded
      before and the event neither commits nor writes. */
  lemma StrandedAfter(cfg: Config, s: State, e: Event)
    requires ValidEvent(cfg, s, e) && StoreInvariant(cfg, s.stores)
    ensures Stranded(Step(cfg, s, e)) <==> Strands(cfg, s, e) || (Stranded(s) && Idles(cfg, s, e))
  {
    if e.Reboot? {
      BootStrands(cfg, s.stores.persist.saved, e.now, e.files, e.codes);
    } else {
      StepStores(cfg, s, e);
      TopKeepsInvariant(cfg, s, e);
      RequestLeavesUnsaved(cfg, AtTop(cfg, s, e).stores, RequestOf(e), WorldOf(e));
      TopStrands(cfg, s, e);
    }
  }

  datatype Mark = Stranding | Idling | Clearing

  ghost function MarkOf(cfg: Config, s: State, e: Event): Mark {
    if Strands(cfg, s, e) then Stranding else if Idles(cfg, s, e) then Idling else Clearing
  }

  /** What each event of a run does to stranded writes. */
  ghost function Marks(cfg: Config, s: State, es: seq<Event>): (ms: seq<Mark>)
    requires ValidRun(cfg, s, es)
    ensures |ms| == |es|
    decreases |es|
  {
    if es == [] then []
    else
      RunSnoc(cfg, s, es);
      var n := |es| - 1;
      Marks(cfg, s, es[..n]) + [MarkOf(cfg, Run(cfg, s, es[..n]), es[n])]
  }

  /** Event `j` strands a write and every later one idles. */
  predicate StrandedSince(ms: seq<Mark>, j: int) {
    0 <= j < |ms| && ms[j].Stranding? && forall k :: j < k < |ms| ==> ms[k].Idling?
  }

  ghost predicate LeavesStranded(ms: seq<Mark>) {
    exists j :: StrandedSince(ms, j)
  }

  lemma StrandedSinceSnoc(ms: seq<Mark>, m: Mark)
    ensures LeavesStranded(ms + [m]) <==> m.Stranding? || (m.Idling? && LeavesStranded(ms))
  {
    var all := ms + [m];
    if m.Stranding? {
      assert StrandedSince(all, |ms|);
    }
    forall j | StrandedSince(ms, j) && m.Idling?
      ensures StrandedSince(all, j)
    {
    }
    forall j | StrandedSince(all, j) && !m.Stranding?
      ensures m.Idling? && StrandedSince(ms, j)
    {
      assert all[|ms|] == m;
      assert forall k :: 0 <= k < |ms| ==> all[k] == ms[k];
    }
  }

  /** In every run, reboots and failing commits included, a write is left unsaved without a deadline
      at the end exactly when some event stranded one and no event after it committed on request,
      wrote anything or restarted the server. */
  lemma {:induction false} StrandedExactly(cfg: Config, s: State, es: seq<Event>)
    requires ValidRun(cfg, s, es) && StoreInvariant(cfg, s.stores) && !Stranded(s)
    ensures Stranded(Run(cfg, s, es)) <==> LeavesStranded(Marks(cfg, s, es))
    decreases |es|
  {
    if es != [] {
      var n := |es| - 1;
      RunSnoc(cfg, s, es);
      var last := Run(cfg, s, es[..n]);
      StrandedExactly(cfg, s, es[..n]);
      RunKeepsInvariant(cfg, s, es[..n]);
      StrandedAfter(cfg, last, es[n]);
      StrandedSinceSnoc(Marks(cfg, s, es[..n]), MarkOf(cfg, last, es[n]));
    }
  }

  /** At the top of the loop: when the deadline is reached the loop gives it up, and a write is then
      left unsaved without a deadline exactly when the commit of its database failed. */
  lemma FailedCommitStrandsWrites(cfg: Config, s: State, e: Event)
    requires DeadlineReached(s, e) && StoreInvariant(cfg, s.stores)
    ensures var top := AtTop(cfg, s, e);
            && Timeout(top) == -1
            && (Unsaved(top.stores) <==>
                  || (e.codes.persist < 0 && s.stores.persist.cur != s.stores.persist.saved)
                  || (e.codes.mem < 0 && s.stores.mem.cur != s.stores.mem.saved))
  {
  }

  /** A commit request is answered with 0 exactly when every database was committed, and then nothing
      is unsaved; otherwise with the code of the first that failed. */
  lemma CommitRequestSaves(cfg: Config, s: State, fd: int, w: World)
    requires StoreInvariant(cfg, s.stores) && SentTo(s.sent, fd) == []
    requires -0x8000_0000 <= w.codes.persist < 0x8000_0000 && -0x8000_0000 <= w.codes.mem < 0x8000_0000
    ensures var r := Handle(cfg, s, fd, Commit, w).state;
            var reply := SentTo(r.sent, fd);
            && |reply| == 4 && FromWord32(reply) <= 0
            && (FromWord32(reply) == 0 <==> w.codes.persist >= 0 && (cfg.temporary ==> w.codes.mem >= 0))
            && (FromWord32(reply) == 0 ==> !Unsaved(r.stores))
            && (w.codes.persist < 0 ==> FromWord32(reply) == w.codes.persist)
  {
    var code := KvCommit(cfg.temporary, s.stores, w.codes).code;
    Word32RoundTrip(code);
    assert [] + Word32(code) == Word32(code);
  }
}
