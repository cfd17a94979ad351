/** What each monitor is sent, over whole runs. */
module MonitorStreams {
  import opened ByteStrings
  import opened Store
  import opened Protocol
  import opened ServerModel
  import opened StoreRuns
  import Descriptors

  /** A successful set, or a successful delete with an empty value. */
  datatype Change = Change(key: CString, value: Bytes)

  /** The change a request makes, if any. */
  ghost function RequestChange(cfg: Config, st: Stores, req: Request): seq<Change> {
    match req
    case Set(key, value) => if Dirties(cfg, st, req) then [Change(CStr(key), value)] else []
    case Delete(key) => if Dirties(cfg, st, req) then [Change(CStr(key), [])] else []
    case _ => []
  }

  /** The change an event makes, if any. */
  ghost function ChangeOf(cfg: Config, s: State, e: Event): seq<Change> {
    if e.Reboot? then [] else RequestChange(cfg, AtTop(cfg, s, e).stores, RequestOf(e))
  }

  /** All successful sets and deletes of a run from event `from` on, in service order. */
  ghost function ChangesSince(cfg: Config, s: State, es: seq<Event>, from: nat): seq<Change>
    requires ValidRun(cfg, s, es)
    decreases |es|
  {
    if |es| <= from then []
    else
      RunSnoc(cfg, s, es);
      var n := |es| - 1;
      ChangesSince(cfg, s, es[..n], from) + ChangeOf(cfg, Run(cfg, s, es[..n]), es[n])
  }

  /** The changes a pattern matches, in order. */
  function Matching(cfg: Config, pattern: CString, cs: seq<Change>): seq<Change> {
    if cs == [] then []
    else (if cfg.fnmatch(pattern, cs[0].key) then [cs[0]] else []) + Matching(cfg, pattern, cs[1..])
  }

  function Frames(cs: seq<Change>): Bytes {
    if cs == [] then [] else Frame(cs[0].key, cs[0].value) + Frames(cs[1..])
  }

  /** The bytes owed to a monitor for a sequence of changes: one frame per matching change. */
  function Owed(cfg: Config, pattern: CString, cs: seq<Change>): Bytes {
    Frames(Matching(cfg, pattern, cs))
  }

  lemma {:induction false} FramesAppend(xs: seq<Change>, ys: seq<Change>)
    ensures Frames(xs + ys) == Frames(xs) + Frames(ys)
    decreases |xs|
  {
    if xs == [] {
      assert xs + ys == ys;
    } else {
      assert (xs + ys)[1..] == xs[1..] + ys;
      calc {
        Frames(xs + ys);
        Frame(xs[0].key, xs[0].value) + Frames(xs[1..] + ys);
        { FramesAppend(xs[1..], ys); }
        Frame(xs[0].key, xs[0].value) + (Frames(xs[1..]) + Frames(ys));
        Frame(xs[0].key, xs[0].value) + Frames(xs[1..]) + Frames(ys);
      }
    }
  }

  lemma {:induction false} MatchingAppend(cfg: Config, pattern: CString, xs: seq<Change>, ys: seq<Change>)
    ensures Matching(cfg, pattern, xs + ys) == Matching(cfg, pattern, xs) + Matching(cfg, pattern, ys)
    decreases |xs|
  {
    if xs == [] {
      assert xs + ys == ys;
    } else {
      assert (xs + ys)[1..] == xs[1..] + ys;
      var first := if cfg.fnmatch(pattern, xs[0].key) then [xs[0]] else [];
      calc {
        Matching(cfg, pattern, xs + ys);
        first + Matching(cfg, pattern, xs[1..] + ys);
        { MatchingAppend(cfg, pattern, xs[1..], ys); }
        first + (Matching(cfg, pattern, xs[1..]) + Matching(cfg, pattern, ys));
        first + Matching(cfg, pattern, xs[1..]) + Matching(cfg, pattern, ys);
      }
    }
  }

  lemma OwedAppend(cfg: Config, pattern: CString, xs: seq<Change>, ys: seq<Change>)
    ensures Owed(cfg, pattern, xs + ys) == Owed(cfg, pattern, xs) + Owed(cfg, pattern, ys)
  {
    MatchingAppend(cfg, pattern, xs, ys);
    FramesAppend(Matching(cfg, pattern, xs), Matching(cfg, pattern, ys));
  }

  lemma OwedOne(cfg: Config, pattern: CString, c: Change)
    ensures Owed(cfg, pattern, [c]) == if cfg.fnmatch(pattern, c.key) then Frame(c.key, c.value) else []
  {
    assert [c][1..] == [];
    assert Matching(cfg, pattern, [c]) == if cfg.fnmatch(pattern, c.key) then [c] else [];
    assert Frames([c]) == Frame(c.key, c.value) + [];
  }

  // ---------------------------------------------------------------------------------------------
  // One notification

  lemma {:induction false} NotifyOthers(cfg: Config, s: State, todo: seq<Watcher>, key: CString, frame: Bytes,
                                        dead: set<int>, fd: int)
    requires fd !in Fds(todo)
    ensures var r := NotifyAll(cfg, s, todo, key, frame, dead);
            && SentTo(r.sent, fd) == SentTo(s.sent, fd)
            && (forall w: Watcher :: w.fd == fd ==> (w in r.watchers <==> w in s.watchers))
    decreases |todo|
  {
    if todo != [] {
      assert todo == [todo[0]] + todo[1..];
      FdsCons(todo[0], todo[1..]);
      WithoutFds(s.watchers, todo[0].fd);
      NotifyOthers(cfg, NotifyOne(cfg, s, todo[0], key, frame, dead), todo[1..], key, frame, dead, fd);
    }
  }

  /** A monitor on the list is sent the frame exactly when its pattern matches and its send does not
      fail; it leaves the list exactly when its pattern matches and its send fails. */
  lemma {:induction false} NotifyListed(cfg: Config, s: State, todo: seq<Watcher>, key: CString, frame: Bytes,
                                        dead: set<int>, w: Watcher)
    requires DistinctFds(todo) && w in todo && w in s.watchers
    ensures var r := NotifyAll(cfg, s, todo, key, frame, dead);
            && (w in r.watchers <==> !(cfg.fnmatch(w.pattern, key) && w.fd in dead))
            && SentTo(r.sent, w.fd)
               == SentTo(s.sent, w.fd) + if cfg.fnmatch(w.pattern, key) && w.fd !in dead then frame else []
    decreases |todo|
  {
    assert todo == [todo[0]] + todo[1..];
    var s' := NotifyOne(cfg, s, todo[0], key, frame, dead);
    WithoutFds(s.watchers, todo[0].fd);
    if todo[0] == w {
      assert w.fd !in Fds(todo[1..]);
      NotifyOthers(cfg, s', todo[1..], key, frame, dead, w.fd);
    } else {
      assert w in todo[1..];
      NotifyListed(cfg, s', todo[1..], key, frame, dead, w);
    }
  }

  lemma {:induction false} NotifyAddsNone(cfg: Config, s: State, todo: seq<Watcher>, key: CString, frame: Bytes,
                                          dead: set<int>, w: Watcher)
    requires w in NotifyAll(cfg, s, todo, key, frame, dead).watchers
    ensures w in s.watchers
    decreases |todo|
  {
    if todo != [] {
      WithoutFds(s.watchers, todo[0].fd);
      NotifyAddsNone(cfg, NotifyOne(cfg, s, todo[0], key, frame, dead), todo[1..], key, frame, dead, w);
    }
  }

  // ---------------------------------------------------------------------------------------------
  // One turn

  predicate Registers(e: Event, w: Watcher) {
    !e.Reboot? && e.io.Accept? && e.io.fd == w.fd && e.io.world.registration >= 0
    && Parse(e.io.chunks) == Monitor(w.pattern)
  }

  predicate Accepts(e: Event, fd: int) {
    !e.Reboot? && e.io.Accept? && e.io.fd == fd
  }

  lemma ListedFd(ws: seq<Watcher>, w: Watcher)
    requires w in ws
    ensures w.fd in Fds(ws)
  {
    var i :| 0 <= i < |ws| && ws[i] == w;
  }

  /** What the end of a set or delete adds to a monitor's stream. */
  lemma FinishStream(cfg: Config, s: State, fd: int, o: Outcome, key: Bytes, value: Bytes, dead: set<int>, w: Watcher)
    requires DistinctFds(s.watchers) && fd !in Fds(s.watchers)
    requires w in FinishChange(cfg, s, fd, o, key, value, dead).state.watchers
    ensures w in s.watchers
    ensures SentTo(FinishChange(cfg, s, fd, o, key, value, dead).state.sent, w.fd)
         == SentTo(s.sent, w.fd) + Owed(cfg, w.pattern, if o.code >= 0 then [Change(CStr(key), value)] else [])
  {
    OwedOne(cfg, w.pattern, Change(CStr(key), value));
    if o.code >= 0 {
      var s1 := s.(stores := o.stores);
      NotifyAddsNone(cfg, s1, s.watchers, CStr(key), Frame(CStr(key), value), dead, w);
      NotifyListed(cfg, s1, s.watchers, CStr(key), Frame(CStr(key), value), dead, w);
    }
    ListedFd(s.watchers, w);
  }

  /** The branches that notify nobody. */
  lemma QuietStream(cfg: Config, s: State, fd: int, req: Request, wo: World, w: Watcher)
    requires fd !in Fds(s.watchers) && !req.Set? && !req.Delete? && !req.Monitor?
    requires !req.UnsizedMonitor? && (req.List? ==> CursorsOf(s.stores, wo.cursors)) && w in s.watchers
    ensures SentTo(Handle(cfg, s, fd, req, wo).state.sent, w.fd) == SentTo(s.sent, w.fd)
    ensures Handle(cfg, s, fd, req, wo).state.watchers == s.watchers
  {
    ListedFd(s.watchers, w);
  }

  lemma MonitorStream(cfg: Config, s: State, fd: int, pattern: CString, wo: World, w: Watcher)
    requires fd !in Fds(s.watchers) && w in Handle(cfg, s, fd, Monitor(pattern), wo).state.watchers
    ensures var r := Handle(cfg, s, fd, Monitor(pattern), wo).state;
            if w.fd == fd then wo.registration >= 0 && w.pattern == pattern && SentTo(r.sent, fd) == SentTo(s.sent, fd) + Word32(0)
            else w in s.watchers && SentTo(r.sent, w.fd) == SentTo(s.sent, w.fd)
  {
    if w in s.watchers {
      ListedFd(s.watchers, w);
    }
  }

  /** What a served request adds to a monitor's stream. */
  lemma HandleStream(cfg: Config, s: State, fd: int, req: Request, wo: World, w: Watcher)
    requires DistinctFds(s.watchers) && fd !in Fds(s.watchers)
    requires !req.UnsizedMonitor? && (req.List? ==> CursorsOf(s.stores, wo.cursors))
    requires w in Handle(cfg, s, fd, req, wo).state.watchers
    ensures var r := Handle(cfg, s, fd, req, wo).state;
            if req.Monitor? && w.fd == fd then
              wo.registration >= 0 && req == Monitor(w.pattern) && SentTo(r.sent, fd) == SentTo(s.sent, fd) + Word32(0)
            else
              && w in s.watchers
              && SentTo(r.sent, w.fd) == SentTo(s.sent, w.fd) + Owed(cfg, w.pattern, RequestChange(cfg, s.stores, req))
  {
    match req
    case Set(key, value) =>
      FinishStream(cfg, s, fd, KvSet(cfg.temporary, s.stores, key, value, false), key, value, wo.dead, w);
    case Delete(key) =>
      FinishStream(cfg, s, fd, KvDelete(cfg.temporary, s.stores, key), key, [], wo.dead, w);
    case Monitor(pattern) =>
      MonitorStream(cfg, s, fd, pattern, wo, w);
    case _ =>
      QuietStream(cfg, s, fd, req, wo, w);
  }

  lemma AcceptStream(cfg: Config, s: State, io: Io, w: Watcher)
    requires Owned(cfg, s) && ValidIo(cfg, s, io) && io.Accept? && w in DoIo(cfg, s, io).watchers
    ensures io.fd == w.fd ==>
              && io.world.registration >= 0 && Parse(io.chunks) == Monitor(w.pattern)
              && SentTo(DoIo(cfg, s, io).sent, w.fd) == Word32(0)
    ensures io.fd != w.fd ==>
              && w in s.watchers
              && SentTo(DoIo(cfg, s, io).sent, w.fd)
                 == SentTo(s.sent, w.fd) + Owed(cfg, w.pattern, RequestChange(cfg, s.stores, Parse(io.chunks)))
  {
    HandleStream(cfg, Accepted(s, io.fd), io.fd, Parse(io.chunks), io.world, w);
    if w in s.watchers {
      ListedFd(s.watchers, w);
    }
  }

  lemma IoStream(cfg: Config, s: State, io: Io, w: Watcher)
    requires Owned(cfg, s) && ValidIo(cfg, s, io) && w in DoIo(cfg, s, io).watchers && !(io.Accept? && io.fd == w.fd)
    ensures var req := if io.Accept? then Parse(io.chunks) else Ignored;
            && w in s.watchers
            && SentTo(DoIo(cfg, s, io).sent, w.fd)
               == SentTo(s.sent, w.fd) + Owed(cfg, w.pattern, RequestChange(cfg, s.stores, req))
  {
    match io
    case Idle =>
    case Hangup(fd) => WithoutFds(s.watchers, fd);
    case Accept(_, _, _, _, _) => AcceptStream(cfg, s, io, w);
  }

  /** A monitor that is on the list after an event was either registered by it, with nothing but the
      acknowledgement sent, or was on the list before and was sent what the event owes it. */
  lemma StepStream(cfg: Config, s: State, e: Event, w: Watcher)
    requires Owned(cfg, s) && ValidEvent(cfg, s, e) && w in Step(cfg, s, e).watchers
    ensures !e.Reboot?
    ensures Accepts(e, w.fd) ==> Registers(e, w) && SentTo(Step(cfg, s, e).sent, w.fd) == Word32(0)
    ensures !Accepts(e, w.fd) ==>
              && w in s.watchers
              && SentTo(Step(cfg, s, e).sent, w.fd)
                 == SentTo(s.sent, w.fd) + Owed(cfg, w.pattern, ChangeOf(cfg, s, e))
  {
    Descriptors.TopOwnership(cfg, s, e);
    if Accepts(e, w.fd) {
      AcceptStream(cfg, AtTop(cfg, s, e), e.io, w);
    } else {
      IoStream(cfg, AtTop(cfg, s, e), e.io, w);
    }
  }

  lemma RegistrationHandled(cfg: Config, s: State, fd: int, pattern: CString, w: World)
    requires fd !in Fds(s.watchers) && SentTo(s.sent, fd) == [] && fd in s.open
    requires -0x8000_0000 <= w.registration < 0x8000_0000
    ensures var r := Handle(cfg, s, fd, Monitor(pattern), w).state;
            && |SentTo(r.sent, fd)| == 4
            && FromWord32(SentTo(r.sent, fd)) == (if w.registration < 0 then w.registration else 0)
            && r.watchers == (if w.registration < 0 then s.watchers else [Watcher(fd, pattern)] + s.watchers)
            && (Watcher(fd, pattern) in r.watchers <==> w.registration >= 0)
            && fd in r.open
  {
    var code := if w.registration < 0 then w.registration else 0;
    if Watcher(fd, pattern) in s.watchers {
      ListedFd(s.watchers, Watcher(fd, pattern));
    }
    Word32RoundTrip(code);
    assert [] + Word32(code) == Word32(code);
  }

  /** A monitor request from its frame to its answer: the client is told 0 and its pattern is on the list,
      or it is told the code with which the registration failed and it is not. */
  lemma RegistrationAnswered(cfg: Config, s: State, e: Event, pattern: CString)
    requires Owned(cfg, s) && ValidEvent(cfg, s, e) && !e.Reboot? && e.io.Accept? && |pattern| <= 126
    requires Flatten(e.io.chunks) == [77, |pattern| + 1] + pattern + [0] && |e.io.chunks[0]| >= 2
    requires -0x8000_0000 <= e.io.world.registration < 0x8000_0000
    ensures var r, code := Step(cfg, s, e), e.io.world.registration;
            && |SentTo(r.sent, e.io.fd)| == 4
            && FromWord32(SentTo(r.sent, e.io.fd)) == (if code < 0 then code else 0)
            && r.watchers == (if code < 0 then s.watchers else [Watcher(e.io.fd, pattern)] + s.watchers)
            && (Watcher(e.io.fd, pattern) in r.watchers <==> code >= 0)
            && e.io.fd in r.open
  {
    MonitorFraming(pattern, e.io.chunks);
    Descriptors.TopOwnership(cfg, s, e);
    RegistrationHandled(cfg, Accepted(AtTop(cfg, s, e), e.io.fd), e.io.fd, pattern, e.io.world);
  }

  // ---------------------------------------------------------------------------------------------
  // Whole runs

  /** Event `r` is the last one that accepts a descriptor. */
  ghost predicate LastAccepted(es: seq<Event>, fd: int, r: int) {
    0 <= r < |es| && Accepts(es[r], fd) && forall j :: r < j < |es| ==> !Accepts(es[j], fd)
  }

  /** The acknowledgement, then what the pattern is owed for the changes. */
  ghost predicate ExactBytes(cfg: Config, pattern: CString, sent: Bytes, changes: seq<Change>) {
    sent == Word32(0) + Owed(cfg, pattern, changes)
  }

  lemma ExactBytesExtend(cfg: Config, pattern: CString, sent: Bytes, since: seq<Change>, more: seq<Change>)
    requires ExactBytes(cfg, pattern, sent, since)
    ensures ExactBytes(cfg, pattern, sent + Owed(cfg, pattern, more), since + more)
  {
    OwedAppend(cfg, pattern, since, more);
  }

  /** The monitor's stream is its acknowledgement and what it is owed since event `r` registered it. */
  ghost predicate ExactSince(cfg: Config, s: State, es: seq<Event>, w: Watcher, r: int)
    requires ValidRun(cfg, s, es)
  {
    && 0 <= r < |es| && Registers(es[r], w)
    && ExactBytes(cfg, w.pattern, SentTo(Run(cfg, s, es).sent, w.fd), ChangesSince(cfg, s, es, r + 1))
  }

  lemma ExactAtRegistration(cfg: Config, s: State, es: seq<Event>, w: Watcher)
    requires ValidRun(cfg, s, es) && es != [] && Registers(es[|es| - 1], w)
    requires SentTo(Run(cfg, s, es).sent, w.fd) == Word32(0)
    ensures ExactSince(cfg, s, es, w, |es| - 1)
  {
    assert Word32(0) + [] == Word32(0);
  }

  lemma ChangesSnoc(cfg: Config, s: State, es: seq<Event>, from: nat)
    requires ValidRun(cfg, s, es) && from < |es|
    ensures ValidRun(cfg, s, es[..|es| - 1])
    ensures ChangesSince(cfg, s, es, from)
         == ChangesSince(cfg, s, es[..|es| - 1], from) + ChangeOf(cfg, Run(cfg, s, es[..|es| - 1]), es[|es| - 1])
  {
    RunSnoc(cfg, s, es);
  }

  lemma ExactExtends(cfg: Config, s: State, es: seq<Event>, w: Watcher, r: int, m: State, sent: Bytes)
    requires ValidRun(cfg, s, es) && es != [] && ValidRun(cfg, s, es[..|es| - 1])
    requires 0 <= r < |es| - 1 && ExactSince(cfg, s, es[..|es| - 1], w, r)
    requires m == Run(cfg, s, es[..|es| - 1]) && sent == SentTo(Run(cfg, s, es).sent, w.fd)
    requires sent == SentTo(m.sent, w.fd) + Owed(cfg, w.pattern, ChangeOf(cfg, m, es[|es| - 1]))
    ensures ExactSince(cfg, s, es, w, r)
  {
    var n := |es| - 1;
    assert es[..n][r] == es[r];
    ChangesSnoc(cfg, s, es, r + 1);
    ExactBytesExtend(cfg, w.pattern, SentTo(m.sent, w.fd), ChangesSince(cfg, s, es[..n], r + 1), ChangeOf(cfg, m, es[n]));
  }

  lemma LastAcceptedExtends(es: seq<Event>, fd: int, r: int)
    requires es != [] && LastAccepted(es[..|es| - 1], fd, r) && !Accepts(es[|es| - 1], fd)
    ensures LastAccepted(es, fd, r)
  {
    var pre := es[..|es| - 1];
    assert forall j :: 0 <= j < |pre| ==> pre[j] == es[j];
  }

  /** Every monitor on the list was registered at some event of the run, the last one that accepted its
      descriptor, and since then its stream is the 4-byte acknowledgement followed by one frame per
      successful set or delete that matches its pattern, in service order. Reloads, gets, lists and
      commits add nothing. */
  lemma {:induction false} StreamsAreExact(cfg: Config, s: State, es: seq<Event>, w: Watcher) returns (r: int)
    requires Owned(cfg, s) && Descriptors.Stray(cfg, s) == {} && Fds(s.watchers) == {} && ValidRun(cfg, s, es)
    requires w in Run(cfg, s, es).watchers
    ensures LastAccepted(es, w.fd, r) && ExactSince(cfg, s, es, w, r)
    decreases |es|
  {
    ListedFd(Run(cfg, s, es).watchers, w);
    assert es != [];
    var n := |es| - 1;
    RunSnoc(cfg, s, es);
    var m := Run(cfg, s, es[..n]);
    Descriptors.RunOwnership(cfg, s, es[..n]);
    StepStream(cfg, m, es[n], w);
    if Accepts(es[n], w.fd) {
      r := n;
      ExactAtRegistration(cfg, s, es, w);
    } else {
      r := StreamsAreExact(cfg, s, es[..n], w);
      LastAcceptedExtends(es, w.fd, r);
      ExactExtends(cfg, s, es, w, r, m, SentTo(Run(cfg, s, es).sent, w.fd));
    }
  }

  // ---------------------------------------------------------------------------------------------
  // After a monitor is gone

  lemma SameMember(ws: seq<Watcher>, a: Watcher, b: Watcher)
    requires DistinctFds(ws) && a in ws && b in ws && a.fd == b.fd
    ensures a == b
  {
    var i :| 0 <= i < |ws| && ws[i] == a;
    var j :| 0 <= j < |ws| && ws[j] == b;
    assert i == j;
  }

  /** A notification sends nothing to a descriptor without a monitor, and gives it none. */
  lemma NotifySilent(cfg: Config, s: State, key: CString, value: Bytes, dead: set<int>, x: int)
    requires x !in Fds(s.watchers)
    ensures var r := Notify(cfg, s, key, value, dead);
            x !in Fds(r.watchers) && SentTo(r.sent, x) == SentTo(s.sent, x)
  {
    NotifyOthers(cfg, s, s.watchers, key, Frame(key, value), dead, x);
    FdsOfMembers(s.watchers, x);
    FdsOfMembers(Notify(cfg, s, key, value, dead).watchers, x);
  }

  lemma HandleSilent(cfg: Config, s: State, fd: int, req: Request, wo: World, x: int)
    requires x != fd && x !in Fds(s.watchers)
    requires !req.UnsizedMonitor? && (req.List? ==> CursorsOf(s.stores, wo.cursors))
    ensures var r := Handle(cfg, s, fd, req, wo).state;
            x !in Fds(r.watchers) && SentTo(r.sent, x) == SentTo(s.sent, x)
  {
    match req
    case Set(key, value) =>
      var o := KvSet(cfg.temporary, s.stores, key, value, false);
      NotifySilent(cfg, s.(stores := o.stores), CStr(key), value, wo.dead, x);
    case Delete(key) =>
      var o := KvDelete(cfg.temporary, s.stores, key);
      NotifySilent(cfg, s.(stores := o.stores), CStr(key), [], wo.dead, x);
    case Monitor(pattern) =>
      FdsCons(Watcher(fd, pattern), s.watchers);
    case _ =>
  }

  lemma IoSilent(cfg: Config, s: State, io: Io, x: int)
    requires ValidIo(cfg, s, io) && x !in Fds(s.watchers) && !(io.Accept? && io.fd == x)
    ensures x !in Fds(DoIo(cfg, s, io).watchers) && SentTo(DoIo(cfg, s, io).sent, x) == SentTo(s.sent, x)
  {
    match io
    case Idle =>
    case Hangup(fd) => WithoutFds(s.watchers, fd);
    case Accept(fd, chunks, _, w, _) => HandleSilent(cfg, Accepted(s, fd), fd, Parse(chunks), w, x);
  }

  /** A descriptor without a monitor is sent nothing more, whatever is served, until it is accepted
      again. */
  lemma {:induction false} SilentUntilAccepted(cfg: Config, s: State, es: seq<Event>, x: int)
    requires ValidRun(cfg, s, es) && x !in Fds(s.watchers)
    requires forall e :: e in es ==> !e.Reboot? && !Accepts(e, x)
    ensures x !in Fds(Run(cfg, s, es).watchers) && SentTo(Run(cfg, s, es).sent, x) == SentTo(s.sent, x)
    decreases |es|
  {
    if es != [] {
      assert es[0] in es;
      IoSilent(cfg, AtTop(cfg, s, es[0]), es[0].io, x);
      SilentUntilAccepted(cfg, Step(cfg, s, es[0]), es[1..], x);
    }
  }

  lemma NotifyDrops(cfg: Config, s: State, key: CString, value: Bytes, dead: set<int>, w: Watcher)
    requires DistinctFds(s.watchers) && w in s.watchers && w !in Notify(cfg, s, key, value, dead).watchers
    ensures var r := Notify(cfg, s, key, value, dead);
            w.fd !in Fds(r.watchers) && SentTo(r.sent, w.fd) == SentTo(s.sent, w.fd)
  {
    var r := Notify(cfg, s, key, value, dead);
    NotifyListed(cfg, s, s.watchers, key, Frame(key, value), dead, w);
    FdsOfMembers(r.watchers, w.fd);
    forall v | v in r.watchers
      ensures v.fd != w.fd
    {
      NotifyAddsNone(cfg, s, s.watchers, key, Frame(key, value), dead, v);
      if v.fd == w.fd {
        SameMember(s.watchers, v, w);
      }
    }
  }

  lemma HandleDrops(cfg: Config, s: State, fd: int, req: Request, wo: World, w: Watcher)
    requires DistinctFds(s.watchers) && fd !in Fds(s.watchers) && w in s.watchers
    requires !req.UnsizedMonitor? && (req.List? ==> CursorsOf(s.stores, wo.cursors))
    requires w !in Handle(cfg, s, fd, req, wo).state.watchers
    ensures var r := Handle(cfg, s, fd, req, wo).state;
            w.fd !in Fds(r.watchers) && SentTo(r.sent, w.fd) == SentTo(s.sent, w.fd)
  {
    ListedFd(s.watchers, w);
    match req
    case Set(key, value) =>
      var o := KvSet(cfg.temporary, s.stores, key, value, false);
      NotifyDrops(cfg, s.(stores := o.stores), CStr(key), value, wo.dead, w);
    case Delete(key) =>
      var o := KvDelete(cfg.temporary, s.stores, key);
      NotifyDrops(cfg, s.(stores := o.stores), CStr(key), [], wo.dead, w);
    case _ =>
  }

  lemma IoDrops(cfg: Config, s: State, io: Io, w: Watcher)
    requires Owned(cfg, s) && ValidIo(cfg, s, io) && w in s.watchers && w !in DoIo(cfg, s, io).watchers
    ensures w.fd !in Fds(DoIo(cfg, s, io).watchers) && SentTo(DoIo(cfg, s, io).sent, w.fd) == SentTo(s.sent, w.fd)
  {
    ListedFd(s.watchers, w);
    match io
    case Idle =>
    case Hangup(fd) => WithoutFds(s.watchers, fd);
    case Accept(fd, chunks, _, wo, _) => HandleDrops(cfg, Accepted(s, fd), fd, Parse(chunks), wo, w);
  }

  /** The event that takes a monitor off the list, a hang-up or a failed send, sends it nothing. */
  lemma DropSendsNothing(cfg: Config, s: State, e: Event, w: Watcher)
    requires Owned(cfg, s) && ValidEvent(cfg, s, e) && !e.Reboot?
    requires w in s.watchers && w !in Step(cfg, s, e).watchers
    ensures w.fd !in Fds(Step(cfg, s, e).watchers) && SentTo(Step(cfg, s, e).sent, w.fd) == SentTo(s.sent, w.fd)
  {
    Descriptors.TopOwnership(cfg, s, e);
    IoDrops(cfg, AtTop(cfg, s, e), e.io, w);
  }

  /** The whole stream of a monitor that is gone: its acknowledgement and one frame per matching change
      between its registration and the event that dropped it, and nothing after that until its
      descriptor is accepted again. */
  lemma DroppedStreams(cfg: Config, s: State, es: seq<Event>, e: Event, later: seq<Event>, w: Watcher)
    returns (r: int)
    requires Owned(cfg, s) && Descriptors.Stray(cfg, s) == {} && Fds(s.watchers) == {} && ValidRun(cfg, s, es)
    requires w in Run(cfg, s, es).watchers
    requires ValidEvent(cfg, Run(cfg, s, es), e) && !e.Reboot? && w !in Step(cfg, Run(cfg, s, es), e).watchers
    requires ValidRun(cfg, Step(cfg, Run(cfg, s, es), e), later)
    requires forall x :: x in later ==> !x.Reboot? && !Accepts(x, w.fd)
    ensures LastAccepted(es, w.fd, r) && ExactSince(cfg, s, es, w, r)
    ensures SentTo(Run(cfg, Step(cfg, Run(cfg, s, es), e), later).sent, w.fd) == SentTo(Run(cfg, s, es).sent, w.fd)
  {
    var m := Run(cfg, s, es);
    r := StreamsAreExact(cfg, s, es, w);
    Descriptors.RunOwnership(cfg, s, es);
    DropSendsNothing(cfg, m, e, w);
    SilentUntilAccepted(cfg, Step(cfg, m, e), later, w.fd);
  }

  // ---------------------------------------------------------------------------------------------
  // What can be read back

  /** A change whose frame the client can read back. */
  predicate Fits(c: Change) {
    |c.key| < NAME_MAX && |c.value| < VALUE_MAX
  }

  lemma RequestChangeFits(cfg: Config, st: Stores, req: Request)
    ensures forall c :: c in RequestChange(cfg, st, req) ==> Fits(c)
  {
    if (req.Set? || req.Delete?) && Dirties(cfg, st, req) {
      assert StorableKey(req.key) && |CStr(req.key)| < |req.key|;
    }
  }

  lemma {:induction false} ChangesFit(cfg: Config, s: State, es: seq<Event>, from: nat)
    requires ValidRun(cfg, s, es)
    ensures forall c :: c in ChangesSince(cfg, s, es, from) ==> Fits(c)
    decreases |es|
  {
    if |es| > from {
      var n := |es| - 1;
      RunSnoc(cfg, s, es);
      ChangesFit(cfg, s, es[..n], from);
      if !es[n].Reboot? {
        RequestChangeFits(cfg, AtTop(cfg, Run(cfg, s, es[..n]), es[n]).stores, RequestOf(es[n]));
      }
    }
  }

  lemma {:induction false} MatchingIsPart(cfg: Config, pattern: CString, cs: seq<Change>)
    ensures forall c :: c in Matching(cfg, pattern, cs) ==> c in cs && cfg.fnmatch(pattern, c.key)
  {
    if cs != [] {
      MatchingIsPart(cfg, pattern, cs[1..]);
    }
  }
}
