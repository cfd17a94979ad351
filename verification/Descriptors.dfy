/** Descriptor ownership over whole runs: every accepted descriptor is closed exactly once, owned by
    exactly one monitor, or was left behind by a failed registration. */
module Descriptors {
  import opened ByteStrings
  import opened Store
  import opened Protocol
  import opened ServerModel

  /** Open descriptors that nobody owns. */
  function Stray(cfg: Config, s: State): set<int> {
    s.open - cfg.listeners - Fds(s.watchers)
  }

  lemma DropOwnership(cfg: Config, s: State, fd: int)
    requires Owned(cfg, s) && fd in Fds(s.watchers)
    ensures var r := Drop(s, fd);
            Owned(cfg, r) && Stray(cfg, r) == Stray(cfg, s) && Fds(r.watchers) == Fds(s.watchers) - {fd}
  {
    DropKeepsOwned(cfg, s, fd);
    WithoutFds(s.watchers, fd);
  }

  lemma NotifyOneOwnership(cfg: Config, s: State, w: Watcher, key: CString, frame: Bytes, dead: set<int>)
    requires Owned(cfg, s) && w.fd in Fds(s.watchers)
    ensures var r := NotifyOne(cfg, s, w, key, frame, dead);
            Owned(cfg, r) && Stray(cfg, r) == Stray(cfg, s) && Fds(s.watchers) - {w.fd} <= Fds(r.watchers)
  {
    if cfg.fnmatch(w.pattern, key) && w.fd in dead {
      DropOwnership(cfg, s, w.fd);
    }
  }

  lemma {:induction false} NotifyKeepsOwned(cfg: Config, s: State, todo: seq<Watcher>, key: CString, frame: Bytes,
                                            dead: set<int>)
    requires Owned(cfg, s) && DistinctFds(todo) && Fds(todo) <= Fds(s.watchers)
    ensures var r := NotifyAll(cfg, s, todo, key, frame, dead);
            Owned(cfg, r) && Stray(cfg, r) == Stray(cfg, s)
    decreases |todo|
  {
    if todo != [] {
      var w := todo[0];
      assert todo == [w] + todo[1..];
      FdsCons(w, todo[1..]);
      assert w.fd !in Fds(todo[1..]);
      NotifyOneOwnership(cfg, s, w, key, frame, dead);
      NotifyKeepsOwned(cfg, NotifyOne(cfg, s, w, key, frame, dead), todo[1..], key, frame, dead);
    }
  }

  lemma CloseStray(cfg: Config, s: State, fd: int)
    requires Owned(cfg, s) && fd in Stray(cfg, s)
    ensures Owned(cfg, Close(s, fd)) && Stray(cfg, Close(s, fd)) == Stray(cfg, s) - {fd}
  {
    assert s.open - {fd} - cfg.listeners == s.open - cfg.listeners - {fd};
  }

  /** Ownership depends on the monitor list and the descriptor tables only. */
  lemma SameTables(cfg: Config, a: State, b: State)
    requires Owned(cfg, a)
    requires a.watchers == b.watchers && a.epoll == b.epoll && a.open == b.open
    requires a.accepted == b.accepted && a.closed == b.closed
    ensures Owned(cfg, b) && Stray(cfg, b) == Stray(cfg, a)
  {
  }

  lemma RegisteredOwnership(cfg: Config, s: State, fd: int, pattern: CString)
    requires Owned(cfg, s) && fd in Stray(cfg, s)
    ensures var r := s.(epoll := s.epoll + {fd}, watchers := [Watcher(fd, pattern)] + s.watchers);
            Owned(cfg, r) && Stray(cfg, r) == Stray(cfg, s) - {fd}
  {
    var ws := [Watcher(fd, pattern)] + s.watchers;
    FdsCons(Watcher(fd, pattern), s.watchers);
    forall i, j | 0 <= i < j < |ws|
      ensures ws[i].fd != ws[j].fd
    {
      assert ws[j] == s.watchers[j - 1];
      assert ws[j].fd in Fds(s.watchers);
    }
  }

  /** The branches that answer, if at all, and close. */
  lemma AnsweredOwnership(cfg: Config, s: State, fd: int, req: Request, w: World)
    requires Owned(cfg, s) && fd in Stray(cfg, s) && !req.Set? && !req.Delete? && !req.Monitor?
    requires !req.UnsizedMonitor? && (req.List? ==> CursorsOf(s.stores, w.cursors))
    ensures var r := Handle(cfg, s, fd, req, w).state;
            Owned(cfg, r) && Stray(cfg, r) == Stray(cfg, s) - {fd}
  {
    CloseStray(cfg, s, fd);
    SameTables(cfg, Close(s, fd), Handle(cfg, s, fd, req, w).state);
  }

  /** The connection being served is the only new stray, and the handler closes it, hands it to the
      monitor list, or, when registration fails, leaves it. */
  lemma HandleOwnership(cfg: Config, s: State, fd: int, req: Request, w: World)
    requires Owned(cfg, s) && fd in Stray(cfg, s)
    requires !req.UnsizedMonitor? && (req.List? ==> CursorsOf(s.stores, w.cursors))
    ensures var r := Handle(cfg, s, fd, req, w).state;
            && Owned(cfg, r)
            && Stray(cfg, r) == if req.Monitor? && w.registration < 0 then Stray(cfg, s) else Stray(cfg, s) - {fd}
  {
    var r := Handle(cfg, s, fd, req, w).state;
    match req
    case Set(key, value) =>
      FinishOwnership(cfg, s, fd, KvSet(cfg.temporary, s.stores, key, value, false), key, value, w.dead);
    case Delete(key) =>
      FinishOwnership(cfg, s, fd, KvDelete(cfg.temporary, s.stores, key), key, [], w.dead);
    case Monitor(pattern) =>
      if w.registration < 0 {
        SameTables(cfg, s, r);
      } else {
        RegisteredOwnership(cfg, s, fd, pattern);
        SameTables(cfg, s.(epoll := s.epoll + {fd}, watchers := [Watcher(fd, pattern)] + s.watchers), r);
      }
    case _ =>
      AnsweredOwnership(cfg, s, fd, req, w);
  }

  lemma FinishOwnership(cfg: Config, s: State, fd: int, o: Outcome, key: Bytes, value: Bytes, dead: set<int>)
    requires Owned(cfg, s) && fd in Stray(cfg, s)
    ensures var r := FinishChange(cfg, s, fd, o, key, value, dead).state;
            Owned(cfg, r) && Stray(cfg, r) == Stray(cfg, s) - {fd}
  {
    var s1 := s.(stores := o.stores);
    NotifyKeepsOwned(cfg, s1, s.watchers, CStr(key), Frame(CStr(key), value), dead);
    var s2 := if o.code >= 0 then Notify(cfg, s1, CStr(key), value, dead) else s;
    CloseStray(cfg, Send(s2, fd, Word32(o.code)), fd);
  }

  predicate RegistrationFails(io: Io) {
    io.Accept? && Parse(io.chunks).Monitor? && io.world.registration < 0
  }

  lemma AcceptOwnership(cfg: Config, s: State, io: Io)
    requires Owned(cfg, s) && ValidIo(cfg, s, io) && io.Accept?
    ensures var r := DoIo(cfg, s, io);
            && Owned(cfg, r)
            && Stray(cfg, r) == if RegistrationFails(io) then Stray(cfg, s) + {io.fd} else Stray(cfg, s)
  {
    AcceptedKeepsOwned(cfg, s, io.fd);
    var a := Accepted(s, io.fd);
    assert Stray(cfg, a) == Stray(cfg, s) + {io.fd};
    HandleOwnership(cfg, a, io.fd, Parse(io.chunks), io.world);
    var r := Handle(cfg, a, io.fd, Parse(io.chunks), io.world).state;
    assert Stray(cfg, DoIo(cfg, s, io)) == Stray(cfg, r);
  }

  lemma TopOwnership(cfg: Config, s: State, e: Event)
    requires Owned(cfg, s) && !e.Reboot?
    ensures Owned(cfg, AtTop(cfg, s, e)) && Stray(cfg, AtTop(cfg, s, e)) == Stray(cfg, s)
  {
  }

  lemma IoOwnership(cfg: Config, s: State, io: Io)
    requires Owned(cfg, s) && ValidIo(cfg, s, io)
    ensures var r := DoIo(cfg, s, io);
            && Owned(cfg, r)
            && Stray(cfg, r) == if RegistrationFails(io) then Stray(cfg, s) + {io.fd} else Stray(cfg, s)
  {
    if io.Hangup? {
      DropOwnership(cfg, s, io.fd);
    } else if io.Accept? {
      AcceptOwnership(cfg, s, io);
    }
  }

  lemma StepOwnership(cfg: Config, s: State, e: Event)
    requires Owned(cfg, s) && ValidEvent(cfg, s, e)
    ensures Owned(cfg, Step(cfg, s, e))
    ensures Stray(cfg, Step(cfg, s, e))
         == if e.Reboot? then {} else if RegistrationFails(e.io) then Stray(cfg, s) + {e.io.fd} else Stray(cfg, s)
  {
    if e.Reboot? {
      assert cfg.listeners - cfg.listeners == {};
    } else {
      TopOwnership(cfg, s, e);
      IoOwnership(cfg, AtTop(cfg, s, e), e.io);
    }
  }

  /** A hang-up takes exactly its monitor away and closes its descriptor. */
  lemma HangupCloses(cfg: Config, s: State, e: Event)
    requires Owned(cfg, s) && ValidEvent(cfg, s, e) && !e.Reboot? && e.io.Hangup?
    ensures var r, fd := Step(cfg, s, e), e.io.fd;
            && Fds(r.watchers) == Fds(s.watchers) - {fd} && r.epoll == s.epoll - {fd}
            && r.open == s.open - {fd} && r.closed == s.closed + multiset{fd} && r.sent == s.sent
            && (forall w :: w in r.watchers <==> w in s.watchers && w.fd != fd)
  {
    WithoutFds(s.watchers, e.io.fd);
  }

  /** Descriptors whose registration failed since the last reboot. */
  function FailedRegistrations(es: seq<Event>): set<int> {
    if es == [] then {}
    else
      var e := es[|es| - 1];
      if e.Reboot? then {}
      else if RegistrationFails(e.io) then FailedRegistrations(es[..|es| - 1]) + {e.io.fd}
      else FailedRegistrations(es[..|es| - 1])
  }

  lemma {:induction false} RunOwnership(cfg: Config, s: State, es: seq<Event>)
    requires Owned(cfg, s) && Stray(cfg, s) == {} && ValidRun(cfg, s, es)
    ensures Owned(cfg, Run(cfg, s, es)) && Stray(cfg, Run(cfg, s, es)) == FailedRegistrations(es)
    decreases |es|
  {
    if es != [] {
      RunSnoc(cfg, s, es);
      RunOwnership(cfg, s, es[..|es| - 1]);
      StepOwnership(cfg, Run(cfg, s, es[..|es| - 1]), es[|es| - 1]);
    }
  }

  lemma Balance(cfg: Config, r: State, stray: set<int>)
    requires Owned(cfg, r) && Stray(cfg, r) == stray
    ensures r.accepted == r.closed + multiset(Fds(r.watchers)) + multiset(stray)
    ensures r.open == cfg.listeners + Fds(r.watchers) <==> stray == {}
  {
    var owned := Fds(r.watchers);
    assert r.open - cfg.listeners == owned + stray && owned !! stray;
    assert multiset(owned + stray) == multiset(owned) + multiset(stray);
  }

  /** In every reachable state the monitors own distinct descriptors, the epoll set is the listeners
      and the monitors, and the accepted descriptors are exactly those closed once, those owned by a
      monitor and those whose registration failed. So nothing leaks if and only if every
      registration since start-up succeeded. */
  lemma DescriptorConservation(cfg: Config, s: State, es: seq<Event>)
    requires Owned(cfg, s) && Stray(cfg, s) == {} && ValidRun(cfg, s, es)
    ensures var r := Run(cfg, s, es);
            && DistinctFds(r.watchers)
            && r.epoll == cfg.listeners + Fds(r.watchers)
            && r.accepted == r.closed + multiset(Fds(r.watchers)) + multiset(FailedRegistrations(es))
            && (r.open == cfg.listeners + Fds(r.watchers) <==> FailedRegistrations(es) == {})
  {
    RunOwnership(cfg, s, es);
    Balance(cfg, Run(cfg, s, es), FailedRegistrations(es));
  }
}
