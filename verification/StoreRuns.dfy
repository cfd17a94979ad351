/** What every run keeps true of the databases. */
module StoreRuns {
  import opened ByteStrings
  import opened Store
  import opened Streams
  import opened Loader
  import opened Protocol
  import opened ServerModel

  lemma {:induction false} NotifyKeepsStores(cfg: Config, s: State, todo: seq<Watcher>, key: CString, frame: Bytes,
                                             dead: set<int>)
    ensures var r := NotifyAll(cfg, s, todo, key, frame, dead);
            r.stores == s.stores && r.next == s.next && r.clock == s.clock
    decreases |todo|
  {
    if todo != [] {
      NotifyKeepsStores(cfg, NotifyOne(cfg, s, todo[0], key, frame, dead), todo[1..], key, frame, dead);
    }
  }

  /** What a request does to the databases alone. */
  function StoresAfter(cfg: Config, st: Stores, req: Request, w: World): Stores {
    match req
    case Set(key, value) => KvSet(cfg.temporary, st, key, value, false).stores
    case Delete(key) => KvDelete(cfg.temporary, st, key).stores
    case Commit => KvCommit(cfg.temporary, st, w.codes).stores
    case Reload => Load(cfg.temporary, st, cfg.source, w.files, true, w.codes)
    case _ => st
  }

  /** Whether a request changes the databases and so needs a later commit. */
  function Dirties(cfg: Config, st: Stores, req: Request): bool {
    match req
    case Set(key, value) => KvSet(cfg.temporary, st, key, value, false).code >= 0
    case Delete(key) => KvDelete(cfg.temporary, st, key).code >= 0
    case _ => false
  }

  lemma HandleStores(cfg: Config, s: State, fd: int, req: Request, w: World)
    requires !req.UnsizedMonitor? && (req.List? ==> CursorsOf(s.stores, w.cursors))
    ensures var r := Handle(cfg, s, fd, req, w);
            && r.state.stores == StoresAfter(cfg, s.stores, req, w)
            && r.dirty == Dirties(cfg, s.stores, req)
            && r.state.next == s.next && r.state.clock == s.clock
  {
    match req
    case Set(key, value) =>
      var o := KvSet(cfg.temporary, s.stores, key, value, false);
      NotifyKeepsStores(cfg, s.(stores := o.stores), s.watchers, CStr(key), Frame(CStr(key), value), w.dead);
    case Delete(key) =>
      var o := KvDelete(cfg.temporary, s.stores, key);
      NotifyKeepsStores(cfg, s.(stores := o.stores), s.watchers, CStr(key), Frame(CStr(key), []), w.dead);
    case _ =>
  }

  /** The request a turn serves, if any. */
  function RequestOf(e: Event): Request {
    if !e.Reboot? && e.io.Accept? then Parse(e.io.chunks) else Ignored
  }

  function WorldOf(e: Event): World {
    if !e.Reboot? && e.io.Accept? then e.io.world
    else World({}, 0, CommitCodes(0, 0), map[], Cursors([], []))
  }

  /** The databases after a turn: the deadline commit, then the request. */
  lemma StepStores(cfg: Config, s: State, e: Event)
    requires ValidEvent(cfg, s, e)
    ensures !e.Reboot? ==>
              var top := AtTop(cfg, s, e);
              Step(cfg, s, e).stores == StoresAfter(cfg, top.stores, RequestOf(e), WorldOf(e))
    ensures !e.Reboot? ==>
              var top := AtTop(cfg, s, e);
              var r := Step(cfg, s, e);
              && (Dirties(cfg, top.stores, RequestOf(e)) && top.next == 0 ==> r.next == Deadline(cfg, e.io.now))
              && (!(Dirties(cfg, top.stores, RequestOf(e)) && top.next == 0) ==> r.next == top.next)
              && r.clock == if e.io.Accept? then e.io.now else top.clock
  {
    if !e.Reboot? && e.io.Accept? {
      HandleStores(cfg, Accepted(AtTop(cfg, s, e), e.io.fd), e.io.fd, Parse(e.io.chunks), e.io.world);
    }
  }

  /** The deadline commit changes saved copies only. */
  lemma TopStores(cfg: Config, s: State, e: Event)
    requires !e.Reboot?
    ensures var t := AtTop(cfg, s, e).stores;
            && t.persist.cur == s.stores.persist.cur && t.mem.cur == s.stores.mem.cur
            && t.View() == s.stores.View()
            && t.persist.saved in {s.stores.persist.saved, s.stores.persist.cur}
            && t.mem.saved in {s.stores.mem.saved, s.stores.mem.cur}
  {
  }

  // ---------------------------------------------------------------------------------------------
  // Well-formed databases

  /** Well-formed, and without temporary storage the second database stays empty. */
  ghost predicate StoreInvariant(cfg: Config, st: Stores) {
    WellFormed(st) && (cfg.temporary || st.mem == Db(map[], map[]))
  }

  lemma {:induction false} ApplyKeepsInvariant(cfg: Config, st: Stores, defs: seq<Entry>, force: bool)
    requires StoreInvariant(cfg, st)
    ensures StoreInvariant(cfg, ApplyDefs(cfg.temporary, st, defs, force))
    decreases |defs|
  {
    if defs != [] {
      SetKeepsWellFormed(cfg.temporary, st, defs[0].0, defs[0].1, true);
      ApplyKeepsInvariant(cfg, ApplyDef(cfg.temporary, st, defs[0], force), defs[1..], force);
    }
  }

  lemma LoadKeepsInvariant(cfg: Config, st: Stores, files: Files, force: bool, codes: CommitCodes)
    requires StoreInvariant(cfg, st)
    ensures StoreInvariant(cfg, Load(cfg.temporary, st, cfg.source, files, force, codes))
  {
    var defs := AllDefs(Paths(cfg.source), files);
    ApplyKeepsInvariant(cfg, st, defs, force);
    CommitKeepsWellFormed(cfg.temporary, ApplyDefs(cfg.temporary, st, defs, force), codes);
  }

  lemma RequestKeepsInvariant(cfg: Config, st: Stores, req: Request, w: World)
    requires StoreInvariant(cfg, st)
    ensures StoreInvariant(cfg, StoresAfter(cfg, st, req, w))
  {
    match req
    case Set(key, value) => SetKeepsWellFormed(cfg.temporary, st, key, value, false);
    case Delete(key) => DeleteKeepsWellFormed(cfg.temporary, st, key);
    case Commit => CommitKeepsWellFormed(cfg.temporary, st, w.codes);
    case Reload => LoadKeepsInvariant(cfg, st, w.files, true, w.codes);
    case _ =>
  }

  lemma StepKeepsInvariant(cfg: Config, s: State, e: Event)
    requires ValidEvent(cfg, s, e) && StoreInvariant(cfg, s.stores)
    ensures StoreInvariant(cfg, Step(cfg, s, e).stores)
  {
    match e
    case Reboot(now, files, codes) =>
      var saved := s.stores.persist.saved;
      LoadKeepsInvariant(cfg, Stores(Db(saved, saved), Db(map[], map[])), files, false, codes);
    case _ =>
      StepStores(cfg, s, e);
      TopKeepsInvariant(cfg, s, e);
      RequestKeepsInvariant(cfg, AtTop(cfg, s, e).stores, RequestOf(e), WorldOf(e));
  }

  /** In every run, whatever connections bring apart from a monitor frame that announces no length, the
      persistent database holds only "persist." keys and the other one no such key; keys are
      terminated and at most NAME_MAX bytes with their NUL, values are shorter than VALUE_MAX. */
  lemma {:induction false} RunKeepsInvariant(cfg: Config, s: State, es: seq<Event>)
    requires ValidRun(cfg, s, es) && StoreInvariant(cfg, s.stores)
    ensures StoreInvariant(cfg, Run(cfg, s, es).stores)
    decreases |es|
  {
    if es != [] {
      StepKeepsInvariant(cfg, s, es[0]);
      RunKeepsInvariant(cfg, Step(cfg, s, es[0]), es[1..]);
    }
  }

  // ---------------------------------------------------------------------------------------------
  // Clean databases: what the client calls and the loader can store

  ghost predicate CleanMap(m: map<Bytes, Bytes>) {
    forall k :: k in m ==> |k| > 0 && NulFree(k[..|k| - 1]) && m[k] != []
  }

  ghost predicate Clean(st: Stores) {
    CleanMap(st.persist.cur) && CleanMap(st.persist.saved) && CleanMap(st.mem.cur) && CleanMap(st.mem.saved)
  }

  /** A set as the client calls frame it: no NUL inside the key, a non-empty value. */
  predicate CleanRequest(req: Request) {
    req.Set? ==> |req.key| > 0 && NulFree(req.key[..|req.key| - 1]) && req.value != []
  }

  /** A client's set whose header arrives in one piece is such a request. */
  lemma FramedSetIsClean(key: CString, value: Bytes, chunks: seq<Bytes>)
    requires |key| < NAME_MAX && 0 < |value| < VALUE_MAX
    requires NonEmptyChunks(chunks) && Flatten(chunks) == EncodeSet(key, value) && |chunks[0]| >= 3
    ensures CleanRequest(Parse(chunks))
  {
    SetFraming(key, value, chunks);
    assert (key + [0])[..|key|] == key;
  }

  lemma {:induction false} ApplyKeepsClean(temporary: bool, st: Stores, defs: seq<Entry>, force: bool)
    requires Clean(st) && CleanDefs(defs)
    ensures Clean(ApplyDefs(temporary, st, defs, force))
    decreases |defs|
  {
    if defs != [] {
      assert defs[0] in defs;
      ApplyKeepsClean(temporary, ApplyDef(temporary, st, defs[0], force), defs[1..], force);
    }
  }

  lemma LoadKeepsClean(cfg: Config, st: Stores, files: Files, force: bool, codes: CommitCodes)
    requires Clean(st)
    ensures Clean(Load(cfg.temporary, st, cfg.source, files, force, codes))
  {
    AllDefsClean(Paths(cfg.source), files);
    ApplyKeepsClean(cfg.temporary, st, AllDefs(Paths(cfg.source), files), force);
  }

  lemma RequestKeepsClean(cfg: Config, st: Stores, req: Request, w: World)
    requires Clean(st) && CleanRequest(req)
    ensures Clean(StoresAfter(cfg, st, req, w))
  {
    if req.Reload? {
      LoadKeepsClean(cfg, st, w.files, true, w.codes);
    }
  }

  lemma StepKeepsClean(cfg: Config, s: State, e: Event)
    requires ValidEvent(cfg, s, e) && Clean(s.stores) && CleanRequest(RequestOf(e))
    ensures Clean(Step(cfg, s, e).stores)
  {
    match e
    case Reboot(now, files, codes) =>
      var saved := s.stores.persist.saved;
      LoadKeepsClean(cfg, Stores(Db(saved, saved), Db(map[], map[])), files, false, codes);
    case _ =>
      StepStores(cfg, s, e);
      TopStores(cfg, s, e);
      RequestKeepsClean(cfg, AtTop(cfg, s, e).stores, RequestOf(e), WorldOf(e));
  }

  /** In every run whose sets are framed as the client calls frame them, no stored key holds an inner
      NUL and no stored value is empty. */
  lemma {:induction false} RunKeepsClean(cfg: Config, s: State, es: seq<Event>)
    requires ValidRun(cfg, s, es) && Clean(s.stores)
    requires forall e :: e in es ==> CleanRequest(RequestOf(e))
    ensures Clean(Run(cfg, s, es).stores)
    decreases |es|
  {
    if es != [] {
      assert es[0] in es;
      StepKeepsClean(cfg, s, es[0]);
      RunKeepsClean(cfg, Step(cfg, s, es[0]), es[1..]);
    }
  }

  // ---------------------------------------------------------------------------------------------
  // Write-once keys

  lemma TopKeepsInvariant(cfg: Config, s: State, e: Event)
    requires !e.Reboot? && StoreInvariant(cfg, s.stores)
    ensures StoreInvariant(cfg, AtTop(cfg, s, e).stores)
  {
    if e.Turn? {
      CommitKeepsWellFormed(cfg.temporary, s.stores, e.codes);
    }
  }

  lemma ReadOnlyThroughRequest(cfg: Config, st: Stores, req: Request, w: World, k: Bytes)
    requires WellFormed(st) && IsReadOnly(k) && k in st.View() && !req.Reload?
    ensures Lookup(StoresAfter(cfg, st, req, w), k) == Lookup(st, k)
  {
    match req
    case Set(key, value) => SetOnView(cfg.temporary, st, key, value, false);
    case Delete(key) => DeleteOnView(cfg.temporary, st, key);
    case _ =>
  }

  lemma ReadOnlyThroughStep(cfg: Config, s: State, e: Event, k: Bytes)
    requires ValidEvent(cfg, s, e) && StoreInvariant(cfg, s.stores)
    requires IsReadOnly(k) && k in s.stores.View()
    requires !e.Reboot? && !RequestOf(e).Reload?
    ensures Lookup(Step(cfg, s, e).stores, k) == Lookup(s.stores, k)
  {
    StepStores(cfg, s, e);
    TopStores(cfg, s, e);
    TopKeepsInvariant(cfg, s, e);
    ReadOnlyThroughRequest(cfg, AtTop(cfg, s, e).stores, RequestOf(e), WorldOf(e), k);
  }

  /** The forced reload is the only request that can change one, and it then takes the last definition
      in the files; it never removes one. */
  lemma ReloadOfReadOnlyKey(cfg: Config, s: State, e: Event, k: Bytes)
    requires ValidEvent(cfg, s, e) && StoreInvariant(cfg, s.stores)
    requires IsReadOnly(k) && k in s.stores.View() && !e.Reboot? && RequestOf(e).Reload?
    ensures var defs := AllDefs(Paths(cfg.source), WorldOf(e).files);
            Lookup(Step(cfg, s, e).stores, k)
            == if LastDef(cfg.temporary, defs, k).Some? then LastDef(cfg.temporary, defs, k) else Lookup(s.stores, k)
  {
    StepStores(cfg, s, e);
    TopStores(cfg, s, e);
    TopKeepsInvariant(cfg, s, e);
    var top := AtTop(cfg, s, e).stores;
    LoadMeaning(cfg.temporary, top, cfg.source, WorldOf(e).files, true, WorldOf(e).codes, k);
  }

  /** The byte 'R' on a connection: every key takes its last definition in the files, whatever was stored,
      and keys without one keep what they held. */
  lemma ReloadRequest(cfg: Config, s: State, e: Event, k: Bytes)
    requires ValidEvent(cfg, s, e) && StoreInvariant(cfg, s.stores)
    requires !e.Reboot? && e.io.Accept? && Flatten(e.io.chunks) == [82]
    ensures var defs := AllDefs(Paths(cfg.source), e.io.world.files);
            Lookup(Step(cfg, s, e).stores, k)
            == if LastDef(cfg.temporary, defs, k).Some? then LastDef(cfg.temporary, defs, k) else Lookup(s.stores, k)
  {
    OneByteRequests(e.io.chunks);
    StepStores(cfg, s, e);
    TopStores(cfg, s, e);
    TopKeepsInvariant(cfg, s, e);
    var top := AtTop(cfg, s, e).stores;
    LoadMeaning(cfg.temporary, top, cfg.source, e.io.world.files, true, e.io.world.codes, k);
  }

  /** The definition a reload gives a key. */
  function DefinedBy(cfg: Config, e: Event, k: Bytes): Option<Bytes> {
    if RequestOf(e).Reload? then LastDef(cfg.temporary, AllDefs(Paths(cfg.source), WorldOf(e).files), k) else None
  }

  /** The definition given by the latest reload that defines a key. */
  function LatestDefinition(cfg: Config, es: seq<Event>, k: Bytes): Option<Bytes> {
    if es == [] then None
    else if DefinedBy(cfg, es[|es| - 1], k).Some? then DefinedBy(cfg, es[|es| - 1], k)
    else LatestDefinition(cfg, es[..|es| - 1], k)
  }

  lemma ReadOnlyThroughEvent(cfg: Config, s: State, e: Event, k: Bytes)
    requires ValidEvent(cfg, s, e) && StoreInvariant(cfg, s.stores)
    requires IsReadOnly(k) && k in s.stores.View() && !e.Reboot?
    ensures Lookup(Step(cfg, s, e).stores, k)
         == if DefinedBy(cfg, e, k).Some? then DefinedBy(cfg, e, k) else Lookup(s.stores, k)
  {
    if RequestOf(e).Reload? {
      ReloadOfReadOnlyKey(cfg, s, e, k);
    } else {
      ReadOnlyThroughStep(cfg, s, e, k);
    }
  }

  /** Write-once: in every run without a reboot a present key that starts with "ro." stays present,
      and holds the last definition of the latest reload that defines it, or else what it held. */
  lemma {:induction false} ReadOnlyKeys(cfg: Config, s: State, es: seq<Event>, k: Bytes)
    requires ValidRun(cfg, s, es) && StoreInvariant(cfg, s.stores)
    requires IsReadOnly(k) && k in s.stores.View()
    requires forall e :: e in es ==> !e.Reboot?
    ensures k in Run(cfg, s, es).stores.View()
    ensures Lookup(Run(cfg, s, es).stores, k)
         == if LatestDefinition(cfg, es, k).Some? then LatestDefinition(cfg, es, k) else Lookup(s.stores, k)
    decreases |es|
  {
    if es != [] {
      var n := |es| - 1;
      RunSnoc(cfg, s, es);
      ReadOnlyKeys(cfg, s, es[..n], k);
      RunKeepsInvariant(cfg, s, es[..n]);
      ReadOnlyThroughEvent(cfg, Run(cfg, s, es[..n]), es[n], k);
    }
  }

  /** A reboot forgets it: it then holds its first definition in the defaults, if any. */
  lemma RebootOfReadOnlyKey(cfg: Config, s: State, e: Event, k: Bytes)
    requires ValidEvent(cfg, s, e) && StoreInvariant(cfg, s.stores) && IsReadOnly(k) && e.Reboot?
    ensures Lookup(Step(cfg, s, e).stores, k)
         == FirstDef(cfg.temporary, AllDefs(Paths(cfg.source), e.files), k)
  {
    var saved := s.stores.persist.saved;
    var st := Stores(Db(saved, saved), Db(map[], map[]));
    assert st.View() == saved;
    assert k[0] == READ_ONLY_LABEL[0] && PERSIST_LABEL[0] != READ_ONLY_LABEL[0];
    LoadMeaning(cfg.temporary, st, cfg.source, e.files, false, e.codes, k);
  }
}
