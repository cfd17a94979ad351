/** The two implementations of the string API as they run: `property_set`, `property_get` and
    `property_delete` (kvdb/common.c) over kvdb/direct.c and over kvdb/client.c. */
module Clients {
  import opened ByteStrings
  import opened Store
  import opened Streams
  import opened Protocol
  import opened ServerModel
  import opened StoreRuns
  import opened Api
  import opened Server
  import Durability
  import opened MonitorStreams
  import Readers

  /** What a get leaves in the caller's buffer. */
  ghost predicate Holds(buffer: seq<Byte>, before: seq<Byte>, text: Option<CString>) {
    if text.None? then buffer == before
    else |text.value| < |buffer| && buffer[..|text.value|] == text.value && buffer[|text.value|] == 0
  }

  /** `memcpy(value, text, strlen(text) + 1)`. */
  method CopyText(value: array<Byte>, text: CString)
    requires |text| < value.Length
    modifies value
    ensures Holds(value[..], old(value[..]), Some(text))
  {
    Readers.CopyOut(value, text + [0]);
    assert value[..|text| + 1][..|text|] == text;
    assert value[..|text| + 1][|text|] == 0;
  }

  /** The end of `property_get` for a name that the environment holds. */
  method CopyEnv(value: array<Byte>, text: CString) returns (ret: int)
    requires value.Length >= VALUE_MAX
    modifies value
    ensures ret == EnvAnswer(text).code && Holds(value[..], old(value[..]), EnvAnswer(text).text)
  {
    if |text| >= VALUE_MAX {
      return -E2BIG;
    }
    CopyText(value, text);
    ret := |text|;
  }

  /** The end of `property_get`: the terminator goes right after the bytes received. */
  method FinishGet(value: array<Byte>, code: int, ghost data: Bytes, fallback: Option<CString>) returns (ret: int)
    requires value.Length >= VALUE_MAX && |data| < VALUE_MAX
    requires fallback.Some? ==> |fallback.value| < value.Length
    requires code > 0 ==> code == |data| && value[..code] == data
    modifies value
    ensures ret == GetAnswer(code, data, fallback).code
    ensures Holds(value[..], old(value[..]), GetAnswer(code, data, fallback).text)
  {
    if code <= 0 {
      if fallback.None? {
        return -EINVAL;
      }
      CopyText(value, fallback.value);
      return |fallback.value|;
    }
    value[code] := 0;
    assert value[..code] == data;
    assert value[..] == data + [0] + value[code + 1..];
    ret := StrLen(value[..]);
    PrefixStrLen(data, value[code + 1..]);
  }

  lemma PrefixStrLen(data: Bytes, rest: Bytes)
    ensures StrLen(data + [0] + rest) == |CStr(data + [0])|
    ensures CStr(data + [0] + rest) == CStr(data + [0])
  {
    var all, short := data + [0] + rest, data + [0];
    var n := StrLen(short);
    assert n <= |data| by { assert short[|data|] == 0; }
    assert all[n] == short[n] == 0;
    assert forall i :: 0 <= i < n ==> all[i] == short[i];
  }

  // ---------------------------------------------------------------------------------------------
  // Direct mode

  class DirectClient {
    const temporary: bool
    const memoryOnly: bool
    var env: Env
    var disk: Disk

    constructor (temporary: bool, memoryOnly: bool, env: Env, disk: Disk)
      ensures this.temporary == temporary && this.memoryOnly == memoryOnly && this.env == env && this.disk == disk
    {
      this.temporary := temporary;
      this.memoryOnly := memoryOnly;
      this.env := env;
      this.disk := disk;
    }

    /** `property_set_binary`: open, set, close. */
    method SetBinary(key: CString, value: Bytes) returns (code: int)
      modifies this`disk
      ensures LongName(key) || value == [] || |value| >= VALUE_MAX ==> code == -E2BIG && disk == old(disk)
      ensures !LongName(key) && 0 < |value| < VALUE_MAX ==>
                var o := KvSet(temporary, Open(old(disk)), Stored(key), value, false);
                code == o.code && disk == CloseAll(o.stores, memoryOnly)
    {
      if LongName(key) {
        return -E2BIG;
      }
      if value == [] || |value| >= VALUE_MAX {
        return -E2BIG;
      }
      var kvdb := new Kvdb(temporary, Open(disk));
      code := kvdb.Set(Stored(key), value, false);
      disk := CloseAll(kvdb.stores, memoryOnly);
    }

    method PropertySet(key: CString, value: CString) returns (code: int)
      modifies this`env, this`disk
      ensures DirectResult(env, disk, Answer(code, None))
           == DirectOp(temporary, memoryOnly, old(env), old(disk), SetOp(key, value))
    {
      if key in env {
        env := env[key := value];
        return 0;
      }
      code := SetBinary(key, value + [0]);
    }

    /** `property_get_binary` into the caller's buffer. */
    method GetBinary(key: CString, buffer: array<Byte>) returns (code: int, ghost data: Bytes)
      requires buffer.Length >= VALUE_MAX
      modifies this`disk, buffer
      ensures LongName(key) ==> code == -E2BIG && data == [] && disk == old(disk)
      ensures !LongName(key) ==>
                && Fetched(code, data) == KvGet(temporary, Open(old(disk)), Stored(key), Some(VALUE_MAX))
                && disk == CloseAll(Open(old(disk)), memoryOnly)
      ensures code <= 0 ==> buffer[..] == old(buffer[..])
      ensures code > 0 ==> code == |data| && buffer[..code] == data
    {
      if LongName(key) {
        return -E2BIG, [];
      }
      var kvdb := new Kvdb(temporary, Open(disk));
      var found;
      code, found := kvdb.Get(Stored(key), Some(VALUE_MAX));
      if code > 0 {
        Readers.CopyOut(buffer, found);
      }
      disk := CloseAll(kvdb.stores, memoryOnly);
      data := found;
    }

    /** In a well-formed store the value and the terminator stay inside a VALUE_MAX-byte buffer. */
    method PropertyGet(key: CString, value: array<Byte>, fallback: Option<CString>) returns (ret: int)
      requires DiskOk(temporary, disk) && value.Length >= VALUE_MAX
      requires fallback.Some? ==> |fallback.value| < value.Length
      modifies this`disk, value
      ensures var d := DirectOp(temporary, memoryOnly, env, old(disk), GetOp(key, fallback));
              && disk == d.disk && ret == d.answer.code
              && Holds(value[..], old(value[..]), d.answer.text)
    {
      if key in env {
        ret := CopyEnv(value, env[key]);
        return;
      }
      ghost var st := Open(disk);
      var code, data := GetBinary(key, value);
      if !LongName(key) {
        FetchedIsShort(temporary, st, Stored(key));
      }
      ret := FinishGet(value, code, data, fallback);
    }

    method PropertyDelete(key: CString) returns (code: int)
      modifies this`env, this`disk
      ensures DirectResult(env, disk, Answer(code, None))
           == DirectOp(temporary, memoryOnly, old(env), old(disk), DeleteOp(key))
    {
      if LongName(key) {
        return -E2BIG;
      }
      if key in env {
        env := env - {key};
        return 0;
      }
      var kvdb := new Kvdb(temporary, Open(disk));
      code := kvdb.Delete(Stored(key));
      disk := CloseAll(kvdb.stores, memoryOnly);
    }
  }

  lemma FetchedIsShort(temporary: bool, st: Stores, key: Bytes)
    requires WellFormed(st)
    ensures |KvGet(temporary, st, key, Some(VALUE_MAX)).data| < VALUE_MAX
  {
  }

  // ---------------------------------------------------------------------------------------------
  // Server mode

  class RemoteClient {
    const server: KvdbServer
    var env: Env

    constructor (server: KvdbServer, env: Env)
      ensures this.server == server && this.env == env
    {
      this.server := server;
      this.env := env;
    }

    /** Connect, send, and let the server's loop serve the connection; its reply comes back in pieces. */
    method Deliver(net: Net, request: Bytes) returns (reply: Stream)
      requires server.Valid() && ValidEvent(server.cfg, server.Now(), EventFor(net, request))
      modifies server, server.kvdb
      ensures server.Valid() && server.Now() == Step(server.cfg, old(server.Now()), EventFor(net, request))
      ensures fresh(reply) && reply.Valid() && reply.chunks == Split(SentTo(server.sent, net.fd), net.replyCuts)
      ensures reply.ending == 0
    {
      var e := EventFor(net, request);
      var stream := new Stream(e.io.chunks, 0);
      server.RunEvent(e, stream);
      reply := new Stream(Split(SentTo(server.sent, net.fd), net.replyCuts), 0);
    }

    /** The same for a request that needs nothing of the surroundings. */
    method Exchange(net: Net, request: Bytes) returns (reply: Stream)
      requires server.Valid() && NetOk(server.Now(), net)
      requires Plain(request)
      modifies server, server.kvdb
      ensures server.Valid() && server.Now() == Exchanged(server.cfg, old(server.Now()), net, request)
      ensures fresh(reply) && reply.Valid() && reply.chunks == Split(SentTo(server.sent, net.fd), net.replyCuts)
      ensures reply.ending == 0
    {
      EventIsValid(server.cfg, server.Now(), net, request);
      reply := Deliver(net, request);
    }

    /** One `recv` of up to four bytes. */
    method ReceiveWord(reply: Stream, net: Net, ghost sent: Bytes) returns (got: Bytes)
      requires reply.Valid() && reply.chunks == Split(sent, net.replyCuts) && reply.ending == 0
      modifies reply
      ensures got == Received(net, sent, 4)
    {
      var word := new Byte[4](i => 0);
      var ret := reply.RecvBehind(word, 0, 0, 4, []);
      got := word[0..ret];
    }

    /** `recv(fd, &err, 4)`: fewer than four bytes are an error. */
    method ReceiveCode(reply: Stream, net: Net, ghost sent: Bytes) returns (code: int)
      requires reply.Valid() && reply.chunks == Split(sent, net.replyCuts) && reply.ending == 0
      modifies reply
      ensures code == ReplyCode(Received(net, sent, 4))
    {
      var got := ReceiveWord(reply, net, sent);
      if |got| < 4 {
        return -EINVAL;
      }
      code := FromWord32(got[..4]);
    }

    /** `property_set_binary`, two-way. */
    method SetBinary(key: CString, value: Bytes, net: Net) returns (code: int)
      requires server.Valid() && NetOk(server.Now(), net)
      modifies server, server.kvdb
      ensures server.Valid()
      ensures LongName(key) || value == [] || |value| >= VALUE_MAX ==> code == -E2BIG && server.Now() == old(server.Now())
      ensures !LongName(key) && 0 < |value| < VALUE_MAX ==>
                && server.Now() == Exchanged(server.cfg, old(server.Now()), net, EncodeSet(key, value))
                && code == ReplyCode(Received(net, SentTo(server.sent, net.fd), 4))
    {
      if LongName(key) {
        return -E2BIG;
      }
      if value == [] || |value| >= VALUE_MAX {
        return -E2BIG;
      }
      var reply := Exchange(net, EncodeSet(key, value));
      code := ReceiveCode(reply, net, SentTo(server.sent, net.fd));
    }

    method PropertySet(key: CString, value: CString, net: Net) returns (code: int)
      requires server.Valid() && NetOk(server.Now(), net)
      modifies this`env, server, server.kvdb
      ensures server.Valid()
      ensures RemoteResult(env, server.Now(), Answer(code, None))
           == RemoteOp(server.cfg, old(env), old(server.Now()), net, SetOp(key, value))
    {
      if key in env {
        env := env[key := value];
        return 0;
      }
      code := SetBinary(key, value + [0], net);
    }

    /** `recv(fd, value, val_len)` straight into the caller's buffer. */
    method ReceiveValue(reply: Stream, net: Net, ghost sent: Bytes, buffer: array<Byte>)
      returns (code: int, ghost data: Bytes)
      requires reply.Valid() && reply.chunks == Split(sent, net.replyCuts) && reply.ending == 0
      requires buffer.Length >= VALUE_MAX
      modifies reply, buffer
      ensures data == Received(net, sent, VALUE_MAX) && code == |data|
      ensures code > 0 ==> buffer[..code] == data
      ensures code == 0 ==> buffer[..] == old(buffer[..])
    {
      data := Received(net, sent, VALUE_MAX);
      code := reply.RecvBehind(buffer, 0, 0, VALUE_MAX, []);
      assert code > 0 ==> buffer[..code] == buffer[0..code];
      assert code == 0 ==> buffer[..] == old(buffer[..]);
    }

    /** Send a request and receive its reply into the caller's buffer. */
    method Fetch(net: Net, request: Bytes, buffer: array<Byte>) returns (code: int, ghost data: Bytes)
      requires server.Valid() && NetOk(server.Now(), net) && Plain(request) && buffer.Length >= VALUE_MAX
      modifies server, server.kvdb, buffer
      ensures server.Valid() && server.Now() == Exchanged(server.cfg, old(server.Now()), net, request)
      ensures data == Received(net, SentTo(server.sent, net.fd), VALUE_MAX) && code == |data|
      ensures code > 0 ==> buffer[..code] == data
      ensures code == 0 ==> buffer[..] == old(buffer[..])
    {
      var reply := Exchange(net, request);
      code, data := ReceiveValue(reply, net, SentTo(server.sent, net.fd), buffer);
    }

    /** `property_get_binary`: the reply, if any, is received straight into the caller's buffer. */
    method GetBinary(key: CString, buffer: array<Byte>, net: Net) returns (code: int, ghost data: Bytes)
      requires server.Valid() && NetOk(server.Now(), net) && buffer.Length >= VALUE_MAX
      modifies server, server.kvdb, buffer
      ensures server.Valid()
      ensures LongName(key) ==> code == -EINVAL && data == [] && server.Now() == old(server.Now())
      ensures !LongName(key) ==>
                && server.Now() == Exchanged(server.cfg, old(server.Now()), net, EncodeGet(key, VALUE_MAX))
                && data == Received(net, SentTo(server.sent, net.fd), VALUE_MAX) && code == |data|
      ensures code <= 0 ==> buffer[..] == old(buffer[..])
      ensures code > 0 ==> code == |data| && buffer[..code] == data
    {
      if LongName(key) {
        return -EINVAL, [];
      }
      code, data := Fetch(net, EncodeGet(key, VALUE_MAX), buffer);
    }

    method PropertyGet(key: CString, value: array<Byte>, fallback: Option<CString>, net: Net) returns (ret: int)
      requires server.Valid() && StoreInvariant(server.cfg, server.kvdb.stores) && NetOk(server.Now(), net)
      requires value.Length >= VALUE_MAX && (fallback.Some? ==> |fallback.value| < value.Length)
      modifies server, server.kvdb, value
      ensures server.Valid()
      ensures var r := RemoteOp(server.cfg, env, old(server.Now()), net, GetOp(key, fallback));
              && server.Now() == r.state && ret == r.answer.code
              && Holds(value[..], old(value[..]), r.answer.text)
    {
      if key in env {
        ret := CopyEnv(value, env[key]);
        return;
      }
      if !LongName(key) {
        ReplyIsShort(server.cfg, server.Now(), net, key);
      }
      var code, data := GetBinary(key, value, net);
      ret := FinishGet(value, code, data, fallback);
    }

    /** `property_list_binary` from its one-byte request to its last callback: every stored pair is seen
        once and the call returns 0, however the reply is cut. */
    method PropertyList(net: Net, errno: nat) returns (ret: int, calls: seq<Change>, ghost entries: seq<Entry>)
      requires server.Valid() && StoreInvariant(server.cfg, server.kvdb.stores)
      requires ValidEvent(server.cfg, server.Now(), EventFor(net, [76]))
      modifies server, server.kvdb
      ensures server.Valid() && server.Now() == Step(server.cfg, old(server.Now()), EventFor(net, [76]))
      ensures ret == 0 && Readers.ExactlyOnce(entries, old(server.kvdb.stores).View())
      ensures |calls| == |entries|
      ensures forall i :: 0 <= i < |calls| ==> calls[i] == Change(CStr(entries[i].0), entries[i].1)
    {
      entries := ListServed(server.cfg, server.Now(), net);
      var reply := Deliver(net, [76]);
      ret, calls := ReceiveList(reply, net, SentTo(server.sent, net.fd), errno, entries);
    }

    method ReceiveList(reply: Stream, net: Net, ghost sent: Bytes, errno: nat, ghost entries: seq<Entry>)
      returns (ret: int, calls: seq<Change>)
      requires reply.Valid() && reply.chunks == Split(sent, net.replyCuts)
      requires Readers.DecodeList(sent) == Readers.Listing(Readers.CallsOf(entries), Readers.Complete)
      modifies reply
      ensures ret == 0 && |calls| == |entries|
      ensures forall i :: 0 <= i < |calls| ==> calls[i] == Change(CStr(entries[i].0), entries[i].1)
    {
      ret, calls := Readers.ReadList(reply, errno);
    }

    /** `property_commit`; `lost` says that the `recv` fails, `unset` is what the variable for the code
        holds before. */
    method PropertyCommit(net: Net, lost: bool, errno: nat, unset: int) returns (ret: int)
      requires server.Valid() && NetOk(server.Now(), net)
      modifies server, server.kvdb
      ensures server.Valid() && server.Now() == Exchanged(server.cfg, old(server.Now()), net, [67])
      ensures ret == CommitAnswer(net, SentTo(server.sent, net.fd), lost, errno, unset)
    {
      var reply := Exchange(net, [67]);
      if lost {
        return unset;
      }
      ret := ReceiveCommit(reply, net, errno, SentTo(server.sent, net.fd));
    }

    method ReceiveCommit(reply: Stream, net: Net, errno: nat, ghost sent: Bytes) returns (ret: int)
      requires reply.Valid() && reply.chunks == Split(sent, net.replyCuts) && reply.ending == 0
      modifies reply
      ensures ret == CommitAnswer(net, sent, false, errno, 0)
    {
      var got := ReceiveWord(reply, net, sent);
      if |got| < 4 {
        return -(errno as int);
      }
      ret := FromWord32(got[..4]);
    }

    method PropertyDelete(key: CString, net: Net) returns (code: int)
      requires server.Valid() && NetOk(server.Now(), net)
      modifies this`env, server, server.kvdb
      ensures server.Valid()
      ensures RemoteResult(env, server.Now(), Answer(code, None))
           == RemoteOp(server.cfg, old(env), old(server.Now()), net, DeleteOp(key))
    {
      if LongName(key) {
        return -E2BIG;
      }
      if key in env {
        env := env - {key};
        return 0;
      }
      var reply := Exchange(net, EncodeDelete(key));
      code := ReceiveCode(reply, net, SentTo(server.sent, net.fd));
    }
  }

  // ---------------------------------------------------------------------------------------------
  // property_commit

  /** What `property_commit` returns. When the `recv` fails its result is compared as an unsigned number,
      so it does not count as short, and the variable meant for the code is returned as it was; a short
      reply is reported with the thread's old `errno`. */
  function CommitAnswer(net: Net, reply: Bytes, lost: bool, errno: nat, unset: int): int {
    var got := Received(net, reply, 4);
    if lost then unset else if |got| < 4 then -(errno as int) else FromWord32(got[..4])
  }

  lemma ListServed(cfg: Config, s: State, net: Net) returns (entries: seq<Entry>)
    requires Owned(cfg, s) && StoreInvariant(cfg, s.stores) && ValidEvent(cfg, s, EventFor(net, [76]))
    ensures Readers.ExactlyOnce(entries, s.stores.View())
    ensures Readers.DecodeList(SentTo(Step(cfg, s, EventFor(net, [76])).sent, net.fd))
         == Readers.Listing(Readers.CallsOf(entries), Readers.Complete)
  {
    entries := Readers.ListRequest(cfg, s, EventFor(net, [76]));
  }

  lemma CommitDecoded(cuts: seq<nat>)
    ensures Parse(Split([67], cuts)) == Commit
  {
    OneByteRequests(Split([67], cuts));
  }

  lemma CommitReply(cfg: Config, s: State, io: Io)
    requires ValidIo(cfg, s, io) && io.Accept? && Parse(io.chunks) == Commit
    ensures SentTo(DoIo(cfg, s, io).sent, io.fd) == Word32(KvCommit(cfg.temporary, s.stores, io.world.codes).code)
  {
    var code := KvCommit(cfg.temporary, s.stores, io.world.codes).code;
    assert [] + Word32(code) == Word32(code);
  }

  predicate Int32(n: int) {
    -0x8000_0000 <= n < 0x8000_0000
  }

  /** The answer of `property_commit` is the server's code exactly when its four bytes come in the first
      piece, unless what is returned instead is that code by chance; and a code of 0 means that nothing
      is left unsaved. */
  lemma CommitAnswered(cfg: Config, s: State, net: Net, lost: bool, errno: nat, unset: int)
    requires Owned(cfg, s) && StoreInvariant(cfg, s.stores) && NetOk(s, net)
    requires Int32(net.world.codes.persist) && Int32(net.world.codes.mem)
    ensures var s' := Exchanged(cfg, s, net, [67]);
            var codes := net.world.codes;
            var code := if codes.persist < 0 then codes.persist else if cfg.temporary && codes.mem < 0 then codes.mem else 0;
            && (CommitAnswer(net, SentTo(s'.sent, net.fd), lost, errno, unset) == code
                <==> if lost then unset == code else FirstLength(net.replyCuts, 4) == 4 || -(errno as int) == code)
            && (code == 0 ==> !Durability.Unsaved(s'.stores))
  {
    var e := EventFor(net, [67]);
    var top := AtTop(cfg, s, e).stores;
    EventIsValid(cfg, s, net, [67]);
    CommitDecoded(net.cuts);
    CommitReply(cfg, AtTop(cfg, s, e), e.io);
    StepStores(cfg, s, e);
    TopKeepsInvariant(cfg, s, e);
    Durability.CommitLeavesUnsaved(cfg, top, net.world.codes);
    CodeTaken(net, KvCommit(cfg.temporary, top, net.world.codes).code, lost, errno, unset);
  }

  lemma CodeTaken(net: Net, code: int, lost: bool, errno: nat, unset: int)
    requires Int32(code)
    ensures CommitAnswer(net, Word32(code), lost, errno, unset)
         == if lost then unset else if FirstLength(net.replyCuts, 4) < 4 then -(errno as int) else code
  {
    Word32RoundTrip(code);
    FirstPieceOf(Word32(code), net.replyCuts, 4);
    assert Word32(code)[..4] == Word32(code);
  }

  lemma ReplyIsShort(cfg: Config, s: State, net: Net, key: CString)
    requires Owned(cfg, s) && StoreInvariant(cfg, s.stores) && NetOk(s, net) && !LongName(key)
    ensures |Received(net, SentTo(Exchanged(cfg, s, net, EncodeGet(key, VALUE_MAX)).sent, net.fd), VALUE_MAX)| < VALUE_MAX
  {
    var op := GetOp(key, None);
    CallExchanged(cfg, s, net, op);
    ViewReplyIsShort(cfg.temporary, s.stores.View(), RequestFor(net, op));
    FirstPieceOf(ViewReply(cfg.temporary, s.stores.View(), RequestFor(net, op)), net.replyCuts, VALUE_MAX);
  }

  lemma ViewReplyIsShort(temporary: bool, view: map<Bytes, Bytes>, req: Request)
    requires StoredView(temporary, view)
    ensures |ViewReply(temporary, view, req)| < VALUE_MAX
  {
  }
}
