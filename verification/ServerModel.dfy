/** The server's state and what one turn of its loop does to it (kvdb/server.c), as functions on
    values. Server.dfy holds the imperative form that is proved equal to these. */
module ServerModel {
  import opened ByteStrings
  import opened Store
  import opened Streams
  import opened Loader
  import opened Protocol

  /** Build settings, the listening descriptors and the platform's pattern matcher (`fnmatch`). */
  datatype Config = Config(
    temporary: bool,
    interval: nat,
    source: CString,
    listeners: set<int>,
    fnmatch: (CString, CString) -> bool)

  /** One entry of the monitor list. */
  datatype Watcher = Watcher(fd: int, pattern: CString)

  /** What the surroundings answer while one connection is served: the monitors whose send fails,
      the result of adding a descriptor to epoll, commit codes, file contents and cursor orders. */
  datatype World = World(
    dead: set<int>,
    registration: int,
    codes: CommitCodes,
    files: Files,
    cursors: Cursors)

  datatype State = State(
    stores: Stores,
    watchers: seq<Watcher>,
    epoll: set<int>,
    open: set<int>,            // descriptors this process holds open
    sent: map<int, Bytes>,     // bytes sent on each descriptor since it was accepted
    next: int,                 // commit deadline in seconds, 0 when none is pending
    clock: int,                // last reading of the monotonic clock
    accepted: multiset<int>,   // every descriptor returned by accept, once per return
    closed: multiset<int>)     // every descriptor passed to close, once per call

  datatype Served = Served(state: State, dirty: bool)

  // ---------------------------------------------------------------------------------------------
  // Frames sent by the server

  /** A notification or list entry: two length bytes, the key with its NUL, the value. */
  function Frame(key: CString, value: Bytes): Bytes {
    [(|key| + 1) % 256, |value| % 256] + key + [0] + value
  }

  function ListFrames(entries: seq<Entry>): Bytes {
    if entries == [] then []
    else Frame(CStr(entries[0].0), entries[0].1) + ListFrames(entries[1..])
  }

  const LIST_END: Bytes := [0, 0]

  function SentTo(sent: map<int, Bytes>, fd: int): Bytes {
    if fd in sent then sent[fd] else []
  }

  function Send(s: State, fd: int, message: Bytes): State {
    s.(sent := s.sent[fd := SentTo(s.sent, fd) + message])
  }

  function Close(s: State, fd: int): State {
    s.(open := s.open - {fd}, closed := s.closed + multiset{fd})
  }

  // ---------------------------------------------------------------------------------------------
  // Monitors

  function Fds(ws: seq<Watcher>): set<int> {
    set w | w in ws :: w.fd
  }

  function Without(ws: seq<Watcher>, fd: int): seq<Watcher> {
    if ws == [] then []
    else if ws[0].fd == fd then Without(ws[1..], fd)
    else [ws[0]] + Without(ws[1..], fd)
  }

  /** Remove a monitor: off the list, out of epoll, closed. */
  function Drop(s: State, fd: int): State {
    Close(s.(watchers := Without(s.watchers, fd), epoll := s.epoll - {fd}), fd)
  }

  function NotifyOne(cfg: Config, s: State, w: Watcher, key: CString, frame: Bytes, dead: set<int>): State {
    if !cfg.fnmatch(w.pattern, key) then s
    else if w.fd in dead then Drop(s, w.fd)
    else Send(s, w.fd, frame)
  }

  /** The traversal of the monitor list, which may remove the entry it stands on. */
  function NotifyAll(cfg: Config, s: State, todo: seq<Watcher>, key: CString, frame: Bytes, dead: set<int>): State
    decreases |todo|
  {
    if todo == [] then s
    else NotifyAll(cfg, NotifyOne(cfg, s, todo[0], key, frame, dead), todo[1..], key, frame, dead)
  }

  function Notify(cfg: Config, s: State, key: CString, value: Bytes, dead: set<int>): State {
    NotifyAll(cfg, s, s.watchers, key, Frame(key, value), dead)
  }

  // ---------------------------------------------------------------------------------------------
  // One connection

  /** The common end of set and delete: notify on success, reply with the code, close. */
  function FinishChange(cfg: Config, s: State, fd: int, o: Outcome, key: Bytes, value: Bytes, dead: set<int>): Served {
    var s1 := if o.code >= 0 then Notify(cfg, s.(stores := o.stores), CStr(key), value, dead) else s;
    Served(Close(Send(s1, fd, Word32(o.code)), fd), o.code >= 0)
  }

  /** What `kvdb_client` does with a decoded request on descriptor `fd`. */
  ghost function Handle(cfg: Config, s: State, fd: int, req: Request, w: World): Served
    requires !req.UnsizedMonitor? && (req.List? ==> CursorsOf(s.stores, w.cursors))
  {
    match req
    case Delete(key) => FinishChange(cfg, s, fd, KvDelete(cfg.temporary, s.stores, key), key, [], w.dead)
    case Set(key, value) =>
      FinishChange(cfg, s, fd, KvSet(cfg.temporary, s.stores, key, value, false), key, value, w.dead)
    case Get(key, room) =>
      var f := KvGet(cfg.temporary, s.stores, key, Some(room));
      Served(Close(if f.code > 0 then Send(s, fd, f.data) else s, fd), false)
    case List =>
      Served(Close(Send(s, fd, ListFrames(KvList(cfg.temporary, s.stores, w.cursors)) + LIST_END), fd), false)
    case Commit =>
      var o := KvCommit(cfg.temporary, s.stores, w.codes);
      Served(Close(Send(s.(stores := o.stores), fd, Word32(o.code)), fd), false)
    case Reload =>
      Served(Close(s.(stores := Load(cfg.temporary, s.stores, cfg.source, w.files, true, w.codes)), fd), false)
    case Monitor(pattern) =>
      if w.registration < 0 then Served(Send(s, fd, Word32(w.registration)), false)
      else Served(Send(s.(epoll := s.epoll + {fd}, watchers := [Watcher(fd, pattern)] + s.watchers), fd, Word32(0)),
                  false)
    case Ignored => Served(Close(s, fd), false)
  }

  function Accepted(s: State, fd: int): State {
    s.(open := s.open + {fd}, sent := s.sent[fd := []], accepted := s.accepted + multiset{fd})
  }

  // ---------------------------------------------------------------------------------------------
  // The loop

  datatype Io =
    | Idle
    | Accept(fd: int, chunks: seq<Bytes>, ending: int, world: World, now: int)  // now: read after the handler
    | Hangup(fd: int)

  datatype Event =
    | Turn(now: int, codes: CommitCodes, io: Io)  // the top of the loop, a wait, and its first event
    | More(io: Io)  // a further event of the same wait
    | Reboot(now: int, files: Files, codes: CommitCodes)  // power loss and start-up

  /** The commit when the deadline has come, before the loop waits. */
  function Top(cfg: Config, s: State, codes: CommitCodes): State {
    if s.next != 0 && s.next - s.clock <= 0 then
      s.(stores := KvCommit(cfg.temporary, s.stores, codes).stores, next := 0)
    else s
  }

  /** The wait given to `epoll_wait` after `Top`, in milliseconds; -1 waits for ever. */
  function Timeout(s: State): int {
    if s.next != 0 then (s.next - s.clock) * 1000 else -1
  }

  function Deadline(cfg: Config, now: int): int {
    if now + cfg.interval == 0 then 1 else now + cfg.interval
  }

  function Schedule(cfg: Config, r: Served, now: int): State {
    r.state.(clock := now, next := if r.dirty && r.state.next == 0 then Deadline(cfg, now) else r.state.next)
  }

  ghost predicate ValidIo(cfg: Config, s: State, io: Io) {
    match io
    case Idle => true
    case Accept(fd, chunks, ending, w, now) =>
      && fd !in s.open
      && NonEmptyChunks(chunks) && ending <= 0 && !Parse(chunks).UnsizedMonitor?
      && (Parse(chunks).List? ==> CursorsOf(s.stores, w.cursors))
      && s.clock <= now
    case Hangup(fd) => fd in Fds(s.watchers)
  }

  ghost function DoIo(cfg: Config, s: State, io: Io): State
    requires ValidIo(cfg, s, io)
  {
    match io
    case Idle => s
    case Accept(fd, chunks, ending, w, now) => Schedule(cfg, Handle(cfg, Accepted(s, fd), fd, Parse(chunks), w), now)
    case Hangup(fd) => Drop(s, fd)
  }

  /** Start-up from what was saved: open the databases, load the defaults, listen. */
  function Boot(cfg: Config, saved: map<Bytes, Bytes>, now: int, files: Files, codes: CommitCodes): State {
    State(Load(cfg.temporary, Stores(Db(saved, saved), Db(map[], map[])), cfg.source, files, false, codes),
          [], cfg.listeners, cfg.listeners, map[], 0, now, multiset{}, multiset{})
  }

  ghost function AtTop(cfg: Config, s: State, e: Event): State
    requires !e.Reboot?
  {
    if e.Turn? then Top(cfg, s.(clock := e.now), e.codes) else s
  }

  ghost predicate ValidEvent(cfg: Config, s: State, e: Event) {
    match e
    case Turn(now, codes, io) => s.clock <= now && ValidIo(cfg, AtTop(cfg, s, e), io)
    case More(io) => ValidIo(cfg, s, io)
    case Reboot(now, _, _) => 0 <= now
  }

  ghost function Step(cfg: Config, s: State, e: Event): State
    requires ValidEvent(cfg, s, e)
  {
    if e.Reboot? then Boot(cfg, s.stores.persist.saved, e.now, e.files, e.codes)
    else DoIo(cfg, AtTop(cfg, s, e), e.io)
  }

  ghost predicate ValidRun(cfg: Config, s: State, es: seq<Event>)
    decreases |es|
  {
    es == [] || (ValidEvent(cfg, s, es[0]) && ValidRun(cfg, Step(cfg, s, es[0]), es[1..]))
  }

  /** The state after a run. */
  ghost function Run(cfg: Config, s: State, es: seq<Event>): State
    requires ValidRun(cfg, s, es)
    decreases |es|
  {
    if es == [] then s else Run(cfg, Step(cfg, s, es[0]), es[1..])
  }

  lemma {:induction false} RunAppend(cfg: Config, s: State, xs: seq<Event>, ys: seq<Event>)
    ensures ValidRun(cfg, s, xs + ys) <==> ValidRun(cfg, s, xs) && ValidRun(cfg, Run(cfg, s, xs), ys)
    ensures ValidRun(cfg, s, xs + ys) ==> Run(cfg, s, xs + ys) == Run(cfg, Run(cfg, s, xs), ys)
    decreases |xs|
  {
    if xs == [] {
      assert xs + ys == ys;
    } else {
      assert (xs + ys)[1..] == xs[1..] + ys;
      if ValidEvent(cfg, s, xs[0]) {
        RunAppend(cfg, Step(cfg, s, xs[0]), xs[1..], ys);
      }
    }
  }

  lemma RunOne(cfg: Config, s: State, e: Event)
    ensures ValidRun(cfg, s, [e]) <==> ValidEvent(cfg, s, e)
    ensures ValidEvent(cfg, s, e) ==> Run(cfg, s, [e]) == Step(cfg, s, e)
  {
    assert [e][1..] == [];
    if ValidEvent(cfg, s, e) {
      assert ValidRun(cfg, Step(cfg, s, e), []);
    }
  }

  lemma RunAndOne(cfg: Config, s: State, pre: seq<Event>, e: Event)
    requires ValidRun(cfg, s, pre + [e])
    ensures ValidRun(cfg, s, pre) && ValidEvent(cfg, Run(cfg, s, pre), e)
    ensures Run(cfg, s, pre + [e]) == Step(cfg, Run(cfg, s, pre), e)
  {
    RunAppend(cfg, s, pre, [e]);
    RunOne(cfg, Run(cfg, s, pre), e);
  }

  /** A run seen as a shorter run and one more event. */
  lemma RunSnoc(cfg: Config, s: State, es: seq<Event>)
    requires es != [] && ValidRun(cfg, s, es)
    ensures var n := |es| - 1;
            && ValidRun(cfg, s, es[..n])
            && ValidEvent(cfg, Run(cfg, s, es[..n]), es[n])
            && Run(cfg, s, es) == Step(cfg, Run(cfg, s, es[..n]), es[n])
  {
    var n := |es| - 1;
    assert es == es[..n] + [es[n]];
    RunAndOne(cfg, s, es[..n], es[n]);
  }

  // ---------------------------------------------------------------------------------------------
  // Descriptors: who owns what

  ghost predicate DistinctFds(ws: seq<Watcher>) {
    forall i, j :: 0 <= i < j < |ws| ==> ws[i].fd != ws[j].fd
  }

  /** Monitors own distinct open descriptors, the epoll set is the listeners and the monitors, and
      every accepted descriptor was closed exactly once or is still open. */
  ghost predicate Owned(cfg: Config, s: State) {
    && DistinctFds(s.watchers)
    && cfg.listeners <= s.open
    && Fds(s.watchers) <= s.open - cfg.listeners
    && s.epoll == cfg.listeners + Fds(s.watchers)
    && s.accepted == s.closed + multiset(s.open - cfg.listeners)
  }

  lemma FdsCons(w: Watcher, ws: seq<Watcher>)
    ensures Fds([w] + ws) == {w.fd} + Fds(ws)
  {
    var all := [w] + ws;
    forall fd
      ensures fd in Fds(all) <==> fd == w.fd || fd in Fds(ws)
    {
      if fd == w.fd { assert all[0].fd == fd; }
      if fd in Fds(ws) {
        var i :| 0 <= i < |ws| && ws[i].fd == fd;
        assert all[i + 1].fd == fd;
      }
    }
  }

  lemma {:induction false} WithoutMembers(ws: seq<Watcher>, fd: int)
    ensures forall w :: w in Without(ws, fd) <==> w in ws && w.fd != fd
  {
    if ws != [] {
      WithoutMembers(ws[1..], fd);
      assert ws == [ws[0]] + ws[1..];
    }
  }

  lemma FdsOfMembers(xs: seq<Watcher>, fd: int)
    ensures fd in Fds(xs) <==> exists w :: w in xs && w.fd == fd
  {
    if fd in Fds(xs) {
      var i :| 0 <= i < |xs| && xs[i].fd == fd;
      assert xs[i] in xs;
    }
  }

  lemma {:induction false} WithoutDistinct(ws: seq<Watcher>, fd: int)
    requires DistinctFds(ws)
    ensures DistinctFds(Without(ws, fd))
  {
    if ws != [] {
      WithoutDistinct(ws[1..], fd);
      var rest := Without(ws[1..], fd);
      WithoutMembers(ws[1..], fd);
      forall j | 0 <= j < |rest|
        ensures rest[j].fd != ws[0].fd
      {
        assert rest[j] in ws[1..];
      }
    }
  }

  lemma WithoutFds(ws: seq<Watcher>, fd: int)
    ensures Fds(Without(ws, fd)) == Fds(ws) - {fd}
    ensures forall w :: w in Without(ws, fd) <==> w in ws && w.fd != fd
    ensures DistinctFds(ws) ==> DistinctFds(Without(ws, fd))
  {
    WithoutMembers(ws, fd);
    forall x
      ensures x in Fds(Without(ws, fd)) <==> x in Fds(ws) - {fd}
    {
      FdsOfMembers(ws, x);
      FdsOfMembers(Without(ws, fd), x);
    }
    if DistinctFds(ws) {
      WithoutDistinct(ws, fd);
    }
  }

  lemma DropKeepsOwned(cfg: Config, s: State, fd: int)
    requires Owned(cfg, s) && fd in s.open && fd !in cfg.listeners
    ensures Owned(cfg, Drop(s, fd))
  {
    WithoutFds(s.watchers, fd);
    assert s.open - {fd} - cfg.listeners == s.open - cfg.listeners - {fd};
  }

  lemma AcceptedKeepsOwned(cfg: Config, s: State, fd: int)
    requires Owned(cfg, s) && fd !in s.open
    ensures Owned(cfg, Accepted(s, fd))
  {
    assert s.open + {fd} - cfg.listeners == (s.open - cfg.listeners) + {fd};
  }
}
