/** The string API (kvdb/common.c) over its two implementations: through the server
    (kvdb/client.c) and directly on the databases (kvdb/direct.c). */
module Api {
  import opened ByteStrings
  import opened Store
  import opened Streams
  import opened Protocol
  import opened ServerModel
  import opened StoreRuns
  import Descriptors
  import MonitorStreams

  /** The process environment. */
  type Env = map<CString, CString>

  /** One call. A get has a non-null buffer; its default may be null. */
  datatype Op =
    | SetOp(key: CString, value: CString)
    | GetOp(key: CString, fallback: Option<CString>)
    | DeleteOp(key: CString)

  /** The value returned, and the string left in the caller's buffer, or None if it is untouched. */
  datatype Answer = Answer(code: int, text: Option<CString>)

  function Stored(key: CString): Bytes {
    key + [0]
  }

  predicate LongName(key: CString) {
    |key| + 1 > NAME_MAX
  }

  /** The end of `property_get`, given what the binary get returned. */
  function GetAnswer(code: int, data: Bytes, fallback: Option<CString>): Answer {
    if code <= 0 then
      if fallback.None? then Answer(-EINVAL, None) else Answer(|fallback.value|, fallback)
    else
      var s := CStr(data + [0]);
      Answer(|s|, Some(s))
  }

  /** What `property_get` answers from the environment. */
  function EnvAnswer(text: CString): Answer {
    if |text| >= VALUE_MAX then Answer(-E2BIG, None) else Answer(|text|, Some(text))
  }

  // ---------------------------------------------------------------------------------------------
  // Direct mode: open the databases, act, close them

  /** What the database files hold. */
  datatype Disk = Disk(persist: map<Bytes, Bytes>, mem: map<Bytes, Bytes>)

  function Open(disk: Disk): Stores {
    Stores(Db(disk.persist, disk.persist), Db(disk.mem, disk.mem))
  }

  /** Closing writes everything back; a temporary database without a file is lost. */
  function CloseAll(st: Stores, memoryOnly: bool): Disk {
    Disk(st.persist.cur, if memoryOnly then map[] else st.mem.cur)
  }

  datatype DirectResult = DirectResult(env: Env, disk: Disk, answer: Answer)

  function DirectOp(temporary: bool, memoryOnly: bool, env: Env, disk: Disk, op: Op): DirectResult {
    match op
    case SetOp(key, value) =>
      if key in env then DirectResult(env[key := value], disk, Answer(0, None))
      else if LongName(key) || |value| + 1 >= VALUE_MAX then DirectResult(env, disk, Answer(-E2BIG, None))
      else
        var o := KvSet(temporary, Open(disk), Stored(key), value + [0], false);
        DirectResult(env, CloseAll(o.stores, memoryOnly), Answer(o.code, None))
    case GetOp(key, fallback) =>
      if key in env then DirectResult(env, disk, EnvAnswer(env[key]))
      else if LongName(key) then DirectResult(env, disk, GetAnswer(-E2BIG, [], fallback))
      else
        var f := KvGet(temporary, Open(disk), Stored(key), Some(VALUE_MAX));
        DirectResult(env, CloseAll(Open(disk), memoryOnly), GetAnswer(f.code, f.data, fallback))
    case DeleteOp(key) =>
      if LongName(key) then DirectResult(env, disk, Answer(-E2BIG, None))
      else if key in env then DirectResult(env - {key}, disk, Answer(0, None))
      else
        var o := KvDelete(temporary, Open(disk), Stored(key));
        DirectResult(env, CloseAll(o.stores, memoryOnly), Answer(o.code, None))
  }

  // ---------------------------------------------------------------------------------------------
  // Server mode: encode, send, let the server serve it, decode the reply

  /** How one call meets the server: descriptor, pieces of the request and of the reply, whether it is
      a further event of a wait, clock readings and the rest. */
  datatype Net = Net(fd: int, cuts: seq<nat>, replyCuts: seq<nat>, world: World, codes: CommitCodes, batched: bool,
                     before: int, after: int)

  /** The event that serves a request. */
  function EventFor(net: Net, request: Bytes): Event {
    var io := Accept(net.fd, Split(request, net.cuts), 0, net.world, net.after);
    if net.batched then More(io) else Turn(net.before, net.codes, io)
  }

  /** The descriptor is free and time moves forward. */
  predicate NetOk(s: State, net: Net) {
    net.fd !in s.open && s.clock <= net.before <= net.after
  }

  /** A request that is neither a list nor a registration. */
  predicate Plain(request: Bytes) {
    request != [] && request[0] !in {OP_MONITOR, OP_LIST}
  }

  lemma EventIsValid(cfg: Config, s: State, net: Net, request: Bytes)
    requires NetOk(s, net) && Plain(request)
    ensures ValidEvent(cfg, s, EventFor(net, request))
  {
    var chunks := Split(request, net.cuts);
    assert chunks[0][0] == Flatten(chunks)[0];
    assert Header(chunks, 0) == request[0];
  }

  datatype RemoteResult = RemoteResult(env: Env, state: State, answer: Answer)

  /** The server after it has served a request. */
  ghost function Exchanged(cfg: Config, s: State, net: Net, request: Bytes): State
    requires NetOk(s, net) && Plain(request)
  {
    EventIsValid(cfg, s, net, request);
    Step(cfg, s, EventFor(net, request))
  }

  /** What the client's only `recv`, of up to `n` bytes, returns of a reply. */
  function Received(net: Net, reply: Bytes, n: nat): Bytes {
    Taken(Split(reply, net.replyCuts), n)
  }

  /** The code taken from the bytes received. */
  function ReplyCode(got: Bytes): int {
    if |got| < 4 then -EINVAL else FromWord32(got[..4])
  }

  /** The environment and the client's own checks leave the call to the server. */
  predicate Asks(env: Env, op: Op) {
    op.key !in env && !LongName(op.key) && (op.SetOp? ==> |op.value| + 1 < VALUE_MAX)
  }

  /** The frame of a call. */
  function Encoded(op: Op): (request: Bytes)
    requires Asks(map[], op)
    ensures Plain(request)
  {
    match op
    case SetOp(key, value) => EncodeSet(key, value + [0])
    case GetOp(key, _) => EncodeGet(key, VALUE_MAX)
    case DeleteOp(key) => EncodeDelete(key)
  }

  /** What the client makes of the reply. */
  function ClientAnswer(net: Net, op: Op, reply: Bytes): Answer {
    match op
    case GetOp(_, fallback) =>
      var data := Received(net, reply, VALUE_MAX);
      GetAnswer(|data|, data, fallback)
    case _ => Answer(ReplyCode(Received(net, reply, 4)), None)
  }

  datatype LocalResult = LocalResult(env: Env, answer: Answer)

  /** A call that the environment or the client's own checks settle. */
  function LocalOp(env: Env, op: Op): LocalResult
    requires !Asks(env, op)
  {
    match op
    case SetOp(key, value) =>
      if key in env then LocalResult(env[key := value], Answer(0, None)) else LocalResult(env, Answer(-E2BIG, None))
    case GetOp(key, fallback) =>
      if key in env then LocalResult(env, EnvAnswer(env[key])) else LocalResult(env, GetAnswer(-EINVAL, [], fallback))
    case DeleteOp(key) =>
      if LongName(key) then LocalResult(env, Answer(-E2BIG, None)) else LocalResult(env - {key}, Answer(0, None))
  }

  ghost function RemoteOp(cfg: Config, env: Env, s: State, net: Net, op: Op): RemoteResult
    requires NetOk(s, net)
  {
    if Asks(env, op) then
      var s' := Exchanged(cfg, s, net, Encoded(op));
      RemoteResult(env, s', ClientAnswer(net, op, SentTo(s'.sent, net.fd)))
    else RemoteResult(LocalOp(env, op).env, s, LocalOp(env, op).answer)
  }

  // ---------------------------------------------------------------------------------------------
  // The reference: an environment over one flat map

  datatype MapResult = MapResult(env: Env, view: map<Bytes, Bytes>, answer: Answer)

  /** The string stored under a key. */
  function Text(view: map<Bytes, Bytes>, key: CString): Option<CString> {
    if Stored(key) in view && view[Stored(key)] != [] then Some(CStr(view[Stored(key)] + [0])) else None
  }

  function MapOp(temporary: bool, env: Env, view: map<Bytes, Bytes>, op: Op): MapResult {
    match op
    case SetOp(key, value) =>
      if key in env then MapResult(env[key := value], view, Answer(0, None))
      else
        var code := SetCode(temporary, view, Stored(key), value + [0], false);
        MapResult(env, if code >= 0 then view[Stored(key) := value + [0]] else view, Answer(code, None))
    case GetOp(key, fallback) =>
      var text := if key in env then Some(env[key]) else if LongName(key) then None else Text(view, key);
      MapResult(env, view,
                if text.Some? then EnvAnswer(text.value)
                else if fallback.Some? then Answer(|fallback.value|, fallback)
                else Answer(-EINVAL, None))
    case DeleteOp(key) =>
      if LongName(key) then MapResult(env, view, Answer(-E2BIG, None))
      else if key in env then MapResult(env - {key}, view, Answer(0, None))
      else
        var code := DeleteCode(temporary, view, Stored(key));
        MapResult(env, if code >= 0 then view - {Stored(key)} else view, Answer(code, None))
  }

  // ---------------------------------------------------------------------------------------------
  // Both modes implement the reference

  lemma GetMatchesText(temporary: bool, st: Stores, key: CString, fallback: Option<CString>)
    requires WellFormed(st) && (temporary || st.mem.cur == map[]) && !LongName(key)
    ensures var f := KvGet(temporary, st, Stored(key), Some(VALUE_MAX));
            && (f.code > 0 ==> f.code == |f.data|)
            && GetAnswer(f.code, f.data, fallback)
               == (if Text(st.View(), key).Some? then EnvAnswer(Text(st.View(), key).value)
                   else if fallback.Some? then Answer(|fallback.value|, fallback)
                   else Answer(-EINVAL, None))
  {
    assert StorableKey(Stored(key));
    GetOnView(temporary, st, Stored(key), VALUE_MAX);
    if Text(st.View(), key).Some? {
      var v := st.View()[Stored(key)];
      assert |v| < VALUE_MAX;
      assert v[..Min(VALUE_MAX, |v|)] == v;
      assert |CStr(v + [0])| < VALUE_MAX by {
        if |CStr(v + [0])| > |v| { assert (v + [0])[|v|] == 0; }
      }
    }
  }

  ghost predicate DiskOk(temporary: bool, disk: Disk) {
    WellFormed(Open(disk)) && (temporary || disk.mem == map[])
  }

  /** A direct call leaves the reference's environment, map and answer. */
  ghost predicate Matches(temporary: bool, d: DirectResult, m: MapResult) {
    DiskOk(temporary, d.disk) && d.env == m.env && d.answer == m.answer && Open(d.disk).View() == m.view
  }

  lemma ClosedView(temporary: bool, st: Stores)
    requires WellFormed(st) && (temporary || st.mem.cur == map[])
    ensures DiskOk(temporary, CloseAll(st, false)) && Open(CloseAll(st, false)).View() == st.View()
  {
  }

  lemma DirectSetIsMap(temporary: bool, env: Env, disk: Disk, key: CString, value: CString)
    requires DiskOk(temporary, disk)
    ensures Matches(temporary, DirectOp(temporary, false, env, disk, SetOp(key, value)),
                    MapOp(temporary, env, Open(disk).View(), SetOp(key, value)))
  {
    if key !in env && !LongName(key) && |value| + 1 < VALUE_MAX {
      var st := Open(disk);
      var o := KvSet(temporary, st, Stored(key), value + [0], false);
      SetOnView(temporary, st, Stored(key), value + [0], false);
      SetKeepsWellFormed(temporary, st, Stored(key), value + [0], false);
      ClosedView(temporary, o.stores);
    }
  }

  lemma DirectDeleteIsMap(temporary: bool, env: Env, disk: Disk, key: CString)
    requires DiskOk(temporary, disk)
    ensures Matches(temporary, DirectOp(temporary, false, env, disk, DeleteOp(key)),
                    MapOp(temporary, env, Open(disk).View(), DeleteOp(key)))
  {
    if key !in env && !LongName(key) {
      var st := Open(disk);
      var o := KvDelete(temporary, st, Stored(key));
      DeleteOnView(temporary, st, Stored(key));
      DeleteKeepsWellFormed(temporary, st, Stored(key));
      ClosedView(temporary, o.stores);
    }
  }

  lemma DirectGetIsMap(temporary: bool, env: Env, disk: Disk, key: CString, fallback: Option<CString>)
    requires DiskOk(temporary, disk)
    ensures Matches(temporary, DirectOp(temporary, false, env, disk, GetOp(key, fallback)),
                    MapOp(temporary, env, Open(disk).View(), GetOp(key, fallback)))
  {
    if key !in env && !LongName(key) {
      GetMatchesText(temporary, Open(disk), key, fallback);
    }
    assert CloseAll(Open(disk), false) == disk;
  }

  lemma DirectIsMap(temporary: bool, env: Env, disk: Disk, op: Op)
    requires DiskOk(temporary, disk)
    ensures Matches(temporary, DirectOp(temporary, false, env, disk, op), MapOp(temporary, env, Open(disk).View(), op))
  {
    match op
    case SetOp(key, value) => DirectSetIsMap(temporary, env, disk, key, value);
    case DeleteOp(key) => DirectDeleteIsMap(temporary, env, disk, key);
    case GetOp(key, fallback) => DirectGetIsMap(temporary, env, disk, key, fallback);
  }

  /** What the server sends back on the descriptor of a set, delete or get. */
  function Reply(cfg: Config, st: Stores, req: Request): Bytes {
    match req
    case Set(key, value) => Word32(KvSet(cfg.temporary, st, key, value, false).code)
    case Delete(key) => Word32(KvDelete(cfg.temporary, st, key).code)
    case Get(key, room) =>
      var f := KvGet(cfg.temporary, st, key, Some(room));
      if f.code > 0 then f.data else []
    case _ => []
  }

  lemma HandleReply(cfg: Config, s: State, fd: int, req: Request, w: World)
    requires fd !in Fds(s.watchers) && SentTo(s.sent, fd) == []
    requires req.Set? || req.Delete? || req.Get?
    ensures SentTo(Handle(cfg, s, fd, req, w).state.sent, fd) == Reply(cfg, s.stores, req)
  {
    match req
    case Set(key, value) =>
      var o := KvSet(cfg.temporary, s.stores, key, value, false);
      MonitorStreams.NotifyOthers(cfg, s.(stores := o.stores), s.watchers, CStr(key), Frame(CStr(key), value), w.dead, fd);
    case Delete(key) =>
      var o := KvDelete(cfg.temporary, s.stores, key);
      MonitorStreams.NotifyOthers(cfg, s.(stores := o.stores), s.watchers, CStr(key), Frame(CStr(key), []), w.dead, fd);
    case Get(key, room) =>
  }

  lemma AcceptReply(cfg: Config, s: State, io: Io)
    requires Owned(cfg, s) && ValidIo(cfg, s, io) && io.Accept?
    requires Parse(io.chunks).Set? || Parse(io.chunks).Delete? || Parse(io.chunks).Get?
    ensures SentTo(DoIo(cfg, s, io).sent, io.fd) == Reply(cfg, s.stores, Parse(io.chunks))
  {
    HandleReply(cfg, Accepted(s, io.fd), io.fd, Parse(io.chunks), io.world);
  }

  /** One served request: the databases as after the request alone, and the reply. */
  lemma ServeRequest(cfg: Config, s: State, net: Net, request: Bytes, req: Request, top: Stores)
    requires Owned(cfg, s) && NetOk(s, net) && Plain(request)
    requires Parse(Split(request, net.cuts)) == req && (req.Set? || req.Delete? || req.Get?)
    requires StoreInvariant(cfg, s.stores) && top == AtTop(cfg, s, EventFor(net, request)).stores
    ensures Exchanged(cfg, s, net, request).stores == StoresAfter(cfg, top, req, net.world)
    ensures SentTo(Exchanged(cfg, s, net, request).sent, net.fd) == Reply(cfg, top, req)
    ensures StoreInvariant(cfg, top) && top.View() == s.stores.View()
  {
    var e := EventFor(net, request);
    EventIsValid(cfg, s, net, request);
    StepStores(cfg, s, e);
    StepReply(cfg, s, e);
    TopStores(cfg, s, e);
    TopKeepsInvariant(cfg, s, e);
  }

  lemma StepReply(cfg: Config, s: State, e: Event)
    requires Owned(cfg, s) && ValidEvent(cfg, s, e)
    requires RequestOf(e).Set? || RequestOf(e).Delete? || RequestOf(e).Get?
    ensures SentTo(Step(cfg, s, e).sent, e.io.fd) == Reply(cfg, AtTop(cfg, s, e).stores, RequestOf(e))
  {
    Descriptors.TopOwnership(cfg, s, e);
    AcceptReply(cfg, AtTop(cfg, s, e), e.io);
  }

  // ---------------------------------------------------------------------------------------------
  // The first piece of the request and of the reply

  /** How many bytes of a message of `size` bytes come in its first piece. */
  function FirstLength(cuts: seq<nat>, size: nat): (n: nat)
    ensures n <= size
  {
    if cuts == [] then size else Min(size, if cuts[0] == 0 then 1 else cuts[0])
  }

  lemma FirstPieceOf(message: Bytes, cuts: seq<nat>, n: nat)
    requires |message| <= n
    ensures Taken(Split(message, cuts), n) == message[..FirstLength(cuts, |message|)]
  {
  }

  /** The request the server makes of a call when `first` bytes of it come in the first piece. */
  function Understood(op: Op, first: nat): Request {
    match op
    case SetOp(key, value) =>
      if first >= 3 then Set(Stored(key), value + [0]) else if first == 2 then Set(Stored(key), []) else Set([], [])
    case GetOp(key, _) =>
      if first >= 3 then Get(Stored(key), VALUE_MAX) else if first == 2 then Get(Stored(key), 0) else Get([], 0)
    case DeleteOp(key) => if first >= 2 then Delete(Stored(key)) else Delete([])
  }

  /** The request that was meant. */
  function Meant(op: Op): Request {
    Understood(op, 3)
  }

  function RequestFor(net: Net, op: Op): Request {
    Understood(op, FirstLength(net.cuts, 3))
  }

  lemma FirstOfRequest(request: Bytes, cuts: seq<nat>)
    requires 3 <= |request| <= MSG_MAX
    ensures var chunks := Split(request, cuts);
            chunks != [] && Min(|chunks[0]|, 3) == FirstLength(cuts, 3)
  {
    FirstPieceOf(request, cuts, MSG_MAX);
  }

  /** What the server decodes, however the request is cut. */
  lemma RequestDecoded(net: Net, op: Op)
    requires Asks(map[], op)
    ensures Parse(Split(Encoded(op), net.cuts)) == RequestFor(net, op)
  {
    var chunks := Split(Encoded(op), net.cuts);
    FirstOfRequest(Encoded(op), net.cuts);
    match op
    case SetOp(key, value) =>
      SetFraming(key, value + [0], chunks);
      SetMisread(key, value + [0], chunks);
    case GetOp(key, _) =>
      GetFraming(key, VALUE_MAX, chunks);
      GetMisread(key, VALUE_MAX, chunks);
    case DeleteOp(key) =>
      DeleteFraming(key, chunks);
      DeleteMisread(key, chunks);
  }

  /** What a set, a delete or a get does to the reference map. */
  function RequestView(temporary: bool, view: map<Bytes, Bytes>, req: Request): map<Bytes, Bytes> {
    match req
    case Set(key, value) => if SetCode(temporary, view, key, value, false) >= 0 then view[key := value] else view
    case Delete(key) => if DeleteCode(temporary, view, key) >= 0 then view - {key} else view
    case _ => view
  }

  /** The reply to one, in terms of that map. */
  function ViewReply(temporary: bool, view: map<Bytes, Bytes>, req: Request): Bytes {
    match req
    case Set(key, value) => Word32(SetCode(temporary, view, key, value, false))
    case Delete(key) => Word32(DeleteCode(temporary, view, key))
    case Get(key, room) => if key in view then view[key][..Min(room, |view[key]|)] else []
    case _ => []
  }

  /** A map that a store of the server can show. */
  ghost predicate StoredView(temporary: bool, view: map<Bytes, Bytes>) {
    forall k :: k in view ==> StorableKey(k) && |view[k]| < VALUE_MAX && (temporary || IsPersistent(k))
  }

  lemma GetOnStore(cfg: Config, st: Stores, key: Bytes, room: nat)
    requires StoreInvariant(cfg, st)
    ensures Reply(cfg, st, Get(key, room)) == ViewReply(cfg.temporary, st.View(), Get(key, room))
  {
    if StorableKey(key) {
      GetOnView(cfg.temporary, st, key, room);
    }
  }

  /** A served set, delete or get, seen on the map. */
  lemma ServedOnView(cfg: Config, st: Stores, req: Request, w: World)
    requires StoreInvariant(cfg, st) && (req.Set? || req.Delete? || req.Get?)
    ensures StoreInvariant(cfg, StoresAfter(cfg, st, req, w))
    ensures StoresAfter(cfg, st, req, w).View() == RequestView(cfg.temporary, st.View(), req)
    ensures Reply(cfg, st, req) == ViewReply(cfg.temporary, st.View(), req)
  {
    RequestKeepsInvariant(cfg, st, req, w);
    match req
    case Set(key, value) => SetOnView(cfg.temporary, st, key, value, false);
    case Delete(key) => DeleteOnView(cfg.temporary, st, key);
    case Get(key, room) => GetOnStore(cfg, st, key, room);
  }

  /** A call through encoder, stream, handler and store, however its request is cut: the request that
      was understood acts on the map, and its reply comes back. */
  lemma CallExchanged(cfg: Config, s: State, net: Net, op: Op)
    requires Owned(cfg, s) && StoreInvariant(cfg, s.stores) && NetOk(s, net) && Asks(map[], op)
    ensures var s', view := Exchanged(cfg, s, net, Encoded(op)), s.stores.View();
            && StoreInvariant(cfg, s'.stores)
            && s'.stores.View() == RequestView(cfg.temporary, view, RequestFor(net, op))
            && SentTo(s'.sent, net.fd) == ViewReply(cfg.temporary, view, RequestFor(net, op))
  {
    var top := AtTop(cfg, s, EventFor(net, Encoded(op))).stores;
    RequestDecoded(net, op);
    ServeRequest(cfg, s, net, Encoded(op), RequestFor(net, op), top);
    ServedOnView(cfg, top, RequestFor(net, op), net.world);
  }

  // ---------------------------------------------------------------------------------------------
  // When a call through the server is the reference's call

  /** What a call through the server leaves of the map. */
  function NetView(temporary: bool, env: Env, view: map<Bytes, Bytes>, net: Net, op: Op): map<Bytes, Bytes> {
    if Asks(env, op) then RequestView(temporary, view, RequestFor(net, op)) else view
  }

  /** What it answers. */
  function NetAnswer(temporary: bool, env: Env, view: map<Bytes, Bytes>, net: Net, op: Op): Answer {
    if Asks(env, op) then ClientAnswer(net, op, ViewReply(temporary, view, RequestFor(net, op)))
    else MapOp(temporary, env, view, op).answer
  }

  /** The request has the effect that was meant: it needs no server, only reads, or arrives with a whole
      header; or a set that would have been refused loses its value; or a change that would have made
      no difference loses its key. */
  predicate RequestArrives(temporary: bool, env: Env, view: map<Bytes, Bytes>, net: Net, op: Op) {
    || !Asks(env, op)
    || op.GetOp?
    || RequestFor(net, op) == Meant(op)
    || (if op.SetOp? && FirstLength(net.cuts, 3) == 2 then MapOp(temporary, env, view, op).answer.code < 0
        else MapOp(temporary, env, view, op).view == view)
  }

  /** How many bytes of the reply the client needs: a code, or a text without its terminator. */
  function Needed(view: map<Bytes, Bytes>, op: Op): nat {
    if !op.GetOp? then 4 else if Text(view, op.key).Some? then |Text(view, op.key).value| else 0
  }

  predicate ReplyWhole(net: Net, view: map<Bytes, Bytes>, op: Op) {
    FirstLength(net.replyCuts, Needed(view, op)) == Needed(view, op)
  }

  /** The answer is the one that was meant. The code of a set does not depend on its value. A code cut
      short is taken for -EINVAL, and a misread get brings no text. */
  predicate AnswerArrives(temporary: bool, env: Env, view: map<Bytes, Bytes>, net: Net, op: Op) {
    var code := MapOp(temporary, env, view, op).answer.code;
    || !Asks(env, op)
    || (if RequestFor(net, op) == Meant(op) || (op.SetOp? && FirstLength(net.cuts, 3) == 2) then
          ReplyWhole(net, view, op) || (!op.GetOp? && code == -EINVAL)
        else if op.GetOp? then Text(view, op.key) in {None, op.fallback}
        else !ReplyWhole(net, view, op) && code == -EINVAL)
  }

  lemma RequestArrivesExactly(temporary: bool, env: Env, view: map<Bytes, Bytes>, net: Net, op: Op)
    ensures NetView(temporary, env, view, net, op) == MapOp(temporary, env, view, op).view
       <==> RequestArrives(temporary, env, view, net, op)
  {
    if Asks(env, op) && op.SetOp? {
      var stored, empty := view[Stored(op.key) := op.value + [0]], view[Stored(op.key) := []];
      assert stored[Stored(op.key)] != empty[Stored(op.key)];
    }
  }

  lemma CodeReceived(net: Net, n: int)
    requires -100 <= n <= 0
    ensures ReplyCode(Received(net, Word32(n), 4)) == if FirstLength(net.replyCuts, 4) == 4 then n else -EINVAL
  {
    Word32RoundTrip(n);
    FirstPieceOf(Word32(n), net.replyCuts, 4);
    assert Word32(n)[..4] == Word32(n);
  }

  /** A prefix reads as the same text exactly when it holds that text. */
  lemma PrefixText(v: Bytes, k: nat)
    requires k <= |v|
    ensures CStr(v[..k] + [0]) == CStr(v + [0]) <==> k >= |CStr(v + [0])|
    ensures |CStr(v + [0])| <= |v|
  {
    var n := StrLen(v + [0]);
    assert (v + [0])[|v|] == 0;
    if k >= n {
      var p := v[..k] + [0];
      assert forall i :: 0 <= i < n ==> p[i] == (v + [0])[i];
      assert p[n] == 0;
    } else {
      assert |CStr(v[..k] + [0])| <= k by { assert (v[..k] + [0])[k] == 0; }
    }
  }

  /** What a get makes of the first piece of a stored value. */
  lemma ReplyReads(temporary: bool, net: Net, view: map<Bytes, Bytes>, op: Op, reply: Bytes)
    requires op.GetOp? && Asks(map[], op)
    requires reply == (if Stored(op.key) in view then view[Stored(op.key)] else []) && |reply| < VALUE_MAX
    ensures ClientAnswer(net, op, reply) == MapOp(temporary, map[], view, op).answer <==> ReplyWhole(net, view, op)
  {
    FirstPieceOf(reply, net.replyCuts, VALUE_MAX);
    if reply != [] {
      PrefixText(reply, FirstLength(net.replyCuts, |reply|));
    }
  }

  lemma GetArrivesExactly(temporary: bool, view: map<Bytes, Bytes>, net: Net, op: Op)
    requires op.GetOp? && Asks(map[], op) && StoredView(temporary, view)
    ensures NetAnswer(temporary, map[], view, net, op) == MapOp(temporary, map[], view, op).answer
       <==> AnswerArrives(temporary, map[], view, net, op)
  {
    var reply := ViewReply(temporary, view, RequestFor(net, op));
    if RequestFor(net, op) == Meant(op) {
      if Stored(op.key) in view {
        var v := view[Stored(op.key)];
        assert v[..Min(VALUE_MAX, |v|)] == v;
      }
      ReplyReads(temporary, net, view, op, reply);
    } else {
      assert reply == [] by { assert [] !in view; }
      FirstPieceOf(reply, net.replyCuts, VALUE_MAX);
      if Text(view, op.key).Some? {
        PrefixText(view[Stored(op.key)], 0);
      }
    }
  }

  lemma CodeArrivesExactly(temporary: bool, view: map<Bytes, Bytes>, net: Net, op: Op)
    requires !op.GetOp? && Asks(map[], op)
    ensures NetAnswer(temporary, map[], view, net, op) == MapOp(temporary, map[], view, op).answer
       <==> AnswerArrives(temporary, map[], view, net, op)
  {
    match op
    case SetOp(key, value) =>
      var req := RequestFor(net, op);
      CodeReceived(net, SetCode(temporary, view, req.key, req.value, false));
    case DeleteOp(_) =>
      CodeReceived(net, DeleteCode(temporary, view, RequestFor(net, op).key));
  }

  lemma AnswerArrivesExactly(temporary: bool, env: Env, view: map<Bytes, Bytes>, net: Net, op: Op)
    requires StoredView(temporary, view)
    ensures NetAnswer(temporary, env, view, net, op) == MapOp(temporary, env, view, op).answer
       <==> AnswerArrives(temporary, env, view, net, op)
  {
    if Asks(env, op) {
      if op.GetOp? {
        GetArrivesExactly(temporary, view, net, op);
      } else {
        CodeArrivesExactly(temporary, view, net, op);
      }
    }
  }

  lemma LocalIsMap(temporary: bool, env: Env, view: map<Bytes, Bytes>, op: Op)
    requires !Asks(env, op)
    ensures var m := MapOp(temporary, env, view, op);
            m == MapResult(LocalOp(env, op).env, view, LocalOp(env, op).answer)
  {
  }

  /** The state a call leaves and its answer, seen through one map. */
  lemma RemoteOnView(cfg: Config, env: Env, s: State, net: Net, op: Op)
    requires Owned(cfg, s) && StoreInvariant(cfg, s.stores) && NetOk(s, net)
    ensures var r := RemoteOp(cfg, env, s, net, op);
            && StoreInvariant(cfg, r.state.stores)
            && r.env == MapOp(cfg.temporary, env, s.stores.View(), op).env
            && r.state.stores.View() == NetView(cfg.temporary, env, s.stores.View(), net, op)
            && r.answer == NetAnswer(cfg.temporary, env, s.stores.View(), net, op)
  {
    if Asks(env, op) {
      CallExchanged(cfg, s, net, op);
    } else {
      LocalIsMap(cfg.temporary, env, s.stores.View(), op);
    }
  }

  /** A call through the server, however its request and its reply are cut: the databases are the
      reference's exactly when the request arrives, and the answer is exactly when the answer does;
      the environment always is. */
  lemma RemoteIsMap(cfg: Config, env: Env, s: State, net: Net, op: Op)
    requires Owned(cfg, s) && StoreInvariant(cfg, s.stores) && NetOk(s, net)
    ensures var r := RemoteOp(cfg, env, s, net, op);
            var view := s.stores.View();
            var m := MapOp(cfg.temporary, env, view, op);
            && StoreInvariant(cfg, r.state.stores) && r.env == m.env
            && (r.state.stores.View() == m.view <==> RequestArrives(cfg.temporary, env, view, net, op))
            && (r.answer == m.answer <==> AnswerArrives(cfg.temporary, env, view, net, op))
  {
    RemoteOnView(cfg, env, s, net, op);
    assert StoredView(cfg.temporary, s.stores.View());
    RequestArrivesExactly(cfg.temporary, env, s.stores.View(), net, op);
    AnswerArrivesExactly(cfg.temporary, env, s.stores.View(), net, op);
  }

  lemma SplitSetOnView(temporary: bool, view: map<Bytes, Bytes>, net: Net, key: CString, value: CString)
    requires !LongName(key) && |value| + 1 < VALUE_MAX && FirstLength(net.cuts, 3) == 2
    requires FirstLength(net.replyCuts, 4) == 4
    ensures var op := SetOp(key, value);
            var m := MapOp(temporary, map[], view, op);
            var after := NetView(temporary, map[], view, net, op);
            && NetAnswer(temporary, map[], view, net, op) == m.answer
            && (m.answer.code == 0 ==> Text(after, key) == None && Text(m.view, key) == Some(value))
            && (m.answer.code != 0 ==> after == view)
  {
    CodeReceived(net, SetCode(temporary, view, Stored(key), [], false));
    CStrOfTerminated(value, [0]);
  }

  /** A set whose header is cut after two bytes: it answers as the whole one would, but stores the empty
      value, so a success is reported for a value that is not stored. */
  lemma SplitSetStoresNothing(cfg: Config, s: State, net: Net, key: CString, value: CString)
    requires Owned(cfg, s) && StoreInvariant(cfg, s.stores) && NetOk(s, net)
    requires !LongName(key) && |value| + 1 < VALUE_MAX && FirstLength(net.cuts, 3) == 2
    requires FirstLength(net.replyCuts, 4) == 4
    ensures var r := RemoteOp(cfg, map[], s, net, SetOp(key, value));
            var m := MapOp(cfg.temporary, map[], s.stores.View(), SetOp(key, value));
            && r.answer == m.answer
            && (r.answer.code == 0 ==> Text(r.state.stores.View(), key) == None && Text(m.view, key) == Some(value))
            && (r.answer.code != 0 ==> r.state.stores.View() == s.stores.View())
  {
    RemoteOnView(cfg, map[], s, net, SetOp(key, value));
    SplitSetOnView(cfg.temporary, s.stores.View(), net, key, value);
  }
}
