/** The server process (kvdb/server.c): monitor list, epoll set and deadline updated in place, each
    method proved equal to its function in ServerModel. */
module Server {
  import opened ByteStrings
  import opened Store
  import opened Streams
  import opened Loader
  import opened Protocol
  import opened ServerModel
  import Descriptors

  class KvdbServer {
    const cfg: Config
    const kvdb: Kvdb
    var watchers: seq<Watcher>
    var epoll: set<int>
    var open: set<int>
    var sent: map<int, Bytes>
    var next: int
    var clock: int
    ghost var accepted: multiset<int>
    ghost var closed: multiset<int>

    ghost function Now(): State
      reads this, kvdb
    {
      State(kvdb.stores, watchers, epoll, open, sent, next, clock, accepted, closed)
    }

    ghost predicate Valid()
      reads this, kvdb
    {
      kvdb.temporary == cfg.temporary && Owned(cfg, Now())
    }

    /** `main`: open the databases with what was saved, load the defaults, listen. */
    constructor (cfg: Config, saved: map<Bytes, Bytes>, now: int, files: Files, codes: CommitCodes)
      ensures Valid() && this.cfg == cfg && fresh(kvdb)
      ensures Now() == Boot(cfg, saved, now, files, codes)
    {
      var db := new Kvdb(cfg.temporary, Stores(Db(saved, saved), Db(map[], map[])));
      LoadAll(db, cfg.source, files, false, codes);
      this.cfg := cfg;
      kvdb := db;
      watchers := [];
      epoll := cfg.listeners;
      open := cfg.listeners;
      sent := map[];
      next := 0;
      clock := now;
      accepted := multiset{};
      closed := multiset{};
      new;
      assert open - cfg.listeners == {};
    }

    method SendTo(fd: int, message: Bytes)
      modifies this`sent
      ensures Now() == ServerModel.Send(old(Now()), fd, message)
    {
      sent := sent[fd := SentTo(sent, fd) + message];
    }

    /** Only an open descriptor is ever closed. */
    method CloseFd(fd: int)
      requires fd in open
      modifies this`open, this`closed
      ensures Now() == Close(old(Now()), fd)
    {
      open := open - {fd};
      closed := closed + multiset{fd};
    }

    /** `kvdb_monitor_close`, and the removal inside a failed notification. */
    method DropWatcher(fd: int)
      requires fd in open
      modifies this`watchers, this`epoll, this`open, this`closed
      ensures Now() == Drop(old(Now()), fd)
    {
      watchers := Without(watchers, fd);
      epoll := epoll - {fd};
      CloseFd(fd);
    }

    /** `kvdb_monitor_notify`: walk the list, holding the next entry because the current one may go. */
    method NotifyWatchers(key: CString, value: Bytes, dead: set<int>)
      requires DistinctFds(watchers) && Fds(watchers) <= open
      modifies this`watchers, this`epoll, this`open, this`closed, this`sent
      ensures Now() == Notify(cfg, old(Now()), key, value, dead)
    {
      var frame := Frame(key, value);
      var rest := watchers;
      while rest != []
        invariant DistinctFds(rest) && Fds(rest) <= open
        invariant NotifyAll(cfg, Now(), rest, key, frame, dead) == Notify(cfg, old(Now()), key, value, dead)
        decreases |rest|
      {
        var mon := rest[0];
        assert rest == [mon] + rest[1..];
        FdsCons(mon, rest[1..]);
        assert mon.fd !in Fds(rest[1..]);
        rest := rest[1..];
        if !cfg.fnmatch(mon.pattern, key) {
          continue;
        }
        if mon.fd in dead {
          DropWatcher(mon.fd);
        } else {
          SendTo(mon.fd, frame);
        }
      }
    }

    /** The end of the 'D' and 'S' branches, once the store has answered `err`. */
    method FinishRequest(fd: int, err: int, key: Bytes, value: Bytes, dead: set<int>) returns (dirty: bool)
      requires Valid() && fd in open && fd !in Fds(watchers)
      modifies this`watchers, this`epoll, this`open, this`closed, this`sent
      ensures var s := old(Now());
              Served(Now(), dirty) == FinishChange(cfg, s, fd, Outcome(s.stores, err), key, value, dead)
    {
      dirty := false;
      if err >= 0 {
        dirty := true;
        NotifyKeepsOpen(cfg, Now(), watchers, CStr(key), Frame(CStr(key), value), dead, fd);
        NotifyWatchers(CStr(key), value, dead);
      }
      SendTo(fd, Word32(err));
      CloseFd(fd);
    }

    /** The 'D' branch. */
    method HandleDelete(fd: int, key: Bytes, w: World) returns (dirty: bool)
      requires Valid() && fd in open && fd !in Fds(watchers)
      modifies this`watchers, this`epoll, this`open, this`closed, this`sent, kvdb
      ensures Served(Now(), dirty) == Handle(cfg, old(Now()), fd, Delete(key), w)
    {
      var err := kvdb.Delete(key);
      dirty := FinishRequest(fd, err, key, [], w.dead);
    }

    /** The 'S' branch. */
    method HandleSet(fd: int, key: Bytes, value: Bytes, w: World) returns (dirty: bool)
      requires Valid() && fd in open && fd !in Fds(watchers)
      modifies this`watchers, this`epoll, this`open, this`closed, this`sent, kvdb
      ensures Served(Now(), dirty) == Handle(cfg, old(Now()), fd, Set(key, value), w)
    {
      var err := kvdb.Set(key, value, false);
      dirty := FinishRequest(fd, err, key, value, w.dead);
    }

    /** The 'G' branch. */
    method HandleGet(fd: int, key: Bytes, room: nat, ghost w: World)
      requires kvdb.temporary == cfg.temporary && fd in open
      modifies this`open, this`closed, this`sent
      ensures Served(Now(), false) == Handle(cfg, old(Now()), fd, Get(key, room), w)
    {
      var len, value := kvdb.Get(key, Some(room));
      if len > 0 {
        SendTo(fd, value);
      }
      CloseFd(fd);
    }

    /** The 'L' branch. */
    method HandleList(fd: int, w: World)
      requires kvdb.temporary == cfg.temporary && fd in open && CursorsOf(kvdb.stores, w.cursors)
      modifies this`open, this`closed, this`sent
      ensures Served(Now(), false) == Handle(cfg, old(Now()), fd, List, w)
    {
      var entries := kvdb.List(w.cursors);
      SendList(fd, entries);
      CloseFd(fd);
    }

    /** The 'C' branch. */
    method HandleCommit(fd: int, w: World)
      requires kvdb.temporary == cfg.temporary && fd in open
      modifies this`open, this`closed, this`sent, kvdb
      ensures Served(Now(), false) == Handle(cfg, old(Now()), fd, Commit, w)
    {
      var ret := kvdb.Commit(w.codes);
      SendTo(fd, Word32(ret));
      CloseFd(fd);
    }

    /** The 'R' branch. */
    method HandleReload(fd: int, w: World)
      requires kvdb.temporary == cfg.temporary && fd in open
      modifies this`open, this`closed, kvdb
      ensures Served(Now(), false) == Handle(cfg, old(Now()), fd, Reload, w)
    {
      LoadAll(kvdb, cfg.source, w.files, true, w.codes);
      CloseFd(fd);
    }

    /** The 'M' branch: the descriptor stays open, with an owner only if registration succeeded. */
    method HandleMonitor(fd: int, pattern: CString, w: World)
      modifies this`watchers, this`epoll, this`sent
      ensures Served(Now(), false) == Handle(cfg, old(Now()), fd, Monitor(pattern), w)
    {
      if w.registration < 0 {
        SendTo(fd, Word32(w.registration));
        return;
      }
      epoll := epoll + {fd};
      watchers := [Watcher(fd, pattern)] + watchers;
      SendTo(fd, Word32(0));
    }

    /** The switch of `kvdb_client` on a decoded request. */
    method HandleRequest(fd: int, req: Request, w: World) returns (dirty: bool)
      requires Valid() && fd in open && fd !in cfg.listeners && fd !in Fds(watchers)
      requires !req.UnsizedMonitor? && (req.List? ==> CursorsOf(kvdb.stores, w.cursors))
      modifies this`watchers, this`epoll, this`open, this`closed, this`sent, kvdb
      ensures Served(Now(), dirty) == Handle(cfg, old(Now()), fd, req, w)
    {
      dirty := false;
      match req {
        case Delete(key) => dirty := HandleDelete(fd, key, w);
        case Set(key, value) => dirty := HandleSet(fd, key, value, w);
        case Get(key, room) => HandleGet(fd, key, room, w);
        case List => HandleList(fd, w);
        case Commit => HandleCommit(fd, w);
        case Reload => HandleReload(fd, w);
        case Monitor(pattern) => HandleMonitor(fd, pattern, w);
        case Ignored => CloseFd(fd);
      }
    }

    /** `kvdb_list_consume` for each entry, then the terminator. */
    method SendList(fd: int, entries: seq<Entry>)
      modifies this`sent
      ensures Now() == ServerModel.Send(old(Now()), fd, ListFrames(entries) + LIST_END)
    {
      var rest := entries;
      while rest != []
        invariant ServerModel.Send(Now(), fd, ListFrames(rest) + LIST_END)
               == ServerModel.Send(old(Now()), fd, ListFrames(entries) + LIST_END)
        decreases |rest|
      {
        var frame := Frame(CStr(rest[0].0), rest[0].1);
        SendTwice(Now(), fd, frame, ListFrames(rest[1..]) + LIST_END);
        FirstFrame(rest);
        SendTo(fd, frame);
        rest := rest[1..];
      }
      assert ListFrames([]) + LIST_END == LIST_END;
      SendTo(fd, LIST_END);
    }

    method AcceptFd(fd: int)
      requires Valid() && fd !in open
      modifies this`open, this`sent, this`accepted
      ensures Valid() && Now() == Accepted(old(Now()), fd)
    {
      AcceptedKeepsOwned(cfg, Now(), fd);
      open := open + {fd};
      sent := sent[fd := []];
      accepted := accepted + multiset{fd};
    }

    method ScheduleCommit(dirty: bool, now: int)
      modifies this`clock, this`next
      ensures Now() == Schedule(cfg, Served(old(Now()), dirty), now)
    {
      clock := now;
      if dirty && next == 0 {
        next := now + cfg.interval;
        if next == 0 {
          next := next + 1;
        }
      }
    }

    /** Accept one connection, serve it and set the deadline if the store changed. */
    method ServeConnection(fd: int, stream: Stream, w: World, now: int)
      requires Valid() && stream.Valid()
      requires ValidIo(cfg, Now(), Accept(fd, stream.chunks, stream.ending, w, now))
      modifies this, kvdb, stream
      ensures Now() == DoIo(cfg, old(Now()), Accept(fd, old(stream.chunks), stream.ending, w, now))
    {
      AcceptFd(fd);
      var req := ReadRequest(stream);
      ghost var s := Now();
      assert s == Accepted(old(Now()), fd);
      var dirty := HandleRequest(fd, req, w);
      ScheduleCommit(dirty, now);
    }

    /** The top of the loop: commit when the deadline has come, then choose the wait. */
    method CheckDeadline(now: int, codes: CommitCodes) returns (timeout: int)
      requires kvdb.temporary == cfg.temporary
      modifies this`clock, this`next, kvdb
      ensures Now() == Top(cfg, old(Now()).(clock := now), codes)
      ensures timeout == Timeout(Now())
    {
      clock := now;
      timeout := -1;
      if next != 0 {
        timeout := next - now;
        if timeout <= 0 {
          var _ := kvdb.Commit(codes);
          timeout := -1;
          next := 0;
        } else {
          timeout := timeout * 1000;
        }
      }
    }

    /** What the loop does with one event. `stream` carries an accepted connection. */
    method ServeEvent(io: Io, stream: Stream?)
      requires Valid() && ValidIo(cfg, Now(), io)
      requires io.Accept? ==> stream != null && stream.Valid() && stream.chunks == io.chunks && stream.ending == io.ending
      modifies this, kvdb, stream
      ensures Valid() && Now() == DoIo(cfg, old(Now()), io)
    {
      Descriptors.IoOwnership(cfg, Now(), io);
      match io {
        case Idle =>
        case Accept(fd, _, _, w, now) => ServeConnection(fd, stream, w, now);
        case Hangup(fd) => DropWatcher(fd);
      }
    }

    /** One event of `kvdb_loop`, with the top of the loop before the first event of a wait. */
    method RunEvent(e: Event, stream: Stream?)
      requires Valid() && !e.Reboot? && ValidEvent(cfg, Now(), e)
      requires e.io.Accept? ==>
                 stream != null && stream.Valid() && stream.chunks == e.io.chunks && stream.ending == e.io.ending
      modifies this, kvdb, stream
      ensures Valid() && Now() == Step(cfg, old(Now()), e)
    {
      Descriptors.TopOwnership(cfg, Now(), e);
      if e.Turn? {
        var _ := CheckDeadline(e.now, e.codes);
      }
      ServeEvent(e.io, stream);
    }

    /** `kvdb_loop` over any finite sequence of events, in waits of any size. */
    method Loop(events: seq<Event>)
      requires Valid() && ValidRun(cfg, Now(), events)
      requires forall e :: e in events ==> !e.Reboot?
      modifies this, kvdb
      ensures Valid() && Now() == Run(cfg, old(Now()), events)
    {
      var rest := events;
      while rest != []
        invariant Valid() && ValidRun(cfg, Now(), rest)
        invariant forall e :: e in rest ==> !e.Reboot?
        invariant Run(cfg, Now(), rest) == Run(cfg, old(Now()), events)
        decreases |rest|
      {
        var e := rest[0];
        assert e in rest;
        rest := rest[1..];
        var stream := null;
        if e.io.Accept? {
          stream := new Stream(e.io.chunks, e.io.ending);
        }
        RunEvent(e, stream);
      }
    }
  }

  lemma FirstFrame(entries: seq<Entry>)
    requires entries != []
    ensures ListFrames(entries) + LIST_END
         == Frame(CStr(entries[0].0), entries[0].1) + (ListFrames(entries[1..]) + LIST_END)
  {
    var frame, rest := Frame(CStr(entries[0].0), entries[0].1), ListFrames(entries[1..]);
    assert frame + rest + LIST_END == frame + (rest + LIST_END);
  }

  lemma SendTwice(s: State, fd: int, a: Bytes, b: Bytes)
    ensures ServerModel.Send(ServerModel.Send(s, fd, a), fd, b) == ServerModel.Send(s, fd, a + b)
  {
    assert SentTo(s.sent, fd) + a + b == SentTo(s.sent, fd) + (a + b);
  }

  /** Notification closes monitors only. */
  lemma {:induction false} NotifyKeepsOpen(cfg: Config, s: State, todo: seq<Watcher>, key: CString, frame: Bytes,
                                           dead: set<int>, fd: int)
    requires fd in s.open && fd !in Fds(todo)
    ensures fd in NotifyAll(cfg, s, todo, key, frame, dead).open
    decreases |todo|
  {
    if todo != [] {
      assert todo == [todo[0]] + todo[1..];
      FdsCons(todo[0], todo[1..]);
      NotifyKeepsOpen(cfg, NotifyOne(cfg, s, todo[0], key, frame, dead), todo[1..], key, frame, dead, fd);
    }
  }
}
