/** The client's readers of server streams (kvdb/client.c): list replies and monitor notifications. */
module Readers {
  import opened ByteStrings
  import opened Store
  import opened Streams
  import opened Protocol
  import opened ServerModel
  import opened StoreRuns
  import opened MonitorStreams
  import Descriptors

  // ---------------------------------------------------------------------------------------------
  // property_list_binary

  datatype Ending = Complete | HeaderCut | BodyCut

  /** The calls made to the callback and how the reply ended. */
  datatype Listing = Listing(calls: seq<Change>, ending: Ending)

  function Prepend(cs: seq<Change>, rest: Listing): Listing {
    rest.(calls := cs + rest.calls)
  }

  datatype ListItem = Stop(ending: Ending) | Next(calls: seq<Change>, used: nat)

  /** One turn of the receive loop, skip branches included. */
  function NextListItem(b: Bytes): (r: ListItem)
    ensures r.Next? ==> 2 <= r.used <= |b|
  {
    if |b| < 2 then Stop(HeaderCut)
    else
      var keyLen: int, valLen: int := b[0], b[1];
      if keyLen == 0 && valLen == 0 then Stop(Complete)
      else if keyLen > NAME_MAX || valLen >= VALUE_MAX then Next([], 2)
      else
        var total := keyLen + valLen + 2;
        if total > |b| then Stop(BodyCut)
        // for an empty key the byte tested is the value length, which is then not zero
        else if keyLen == 0 || b[1 + keyLen] != 0 then Next([], total)
        else Next([Change(CStr(b[2..2 + keyLen]), b[2 + keyLen..total])], total)
  }

  /** The whole receive loop over the bytes of a reply. */
  function DecodeList(b: Bytes): Listing
    decreases |b|
  {
    match NextListItem(b)
    case Stop(ending) => Listing([], ending)
    case Next(calls, used) => Prepend(calls, DecodeList(b[used..]))
  }

  /** `recv_safe(fd, msg, 0, 2)`: the two length bytes. */
  method ReceiveLengths(stream: Stream, msg: array<Byte>) returns (ret: int)
    requires stream.Valid() && msg.Length == MSG_MAX
    modifies stream, msg
    ensures stream.Valid()
    ensures var b := old(stream.Pending());
            if |b| >= 2 then ret == 2 && msg[0] == b[0] && msg[1] == b[1] && stream.Pending() == b[2..] else ret < 0
  {
    ret := stream.ReceiveAll(msg, 0, 2);
    assert ret >= 0 ==> msg[0] == msg[0..2][0] && msg[1] == msg[0..2][1];
  }

  /** `recv_safe(fd, msg, 2, total)`: the rest of a frame. */
  method ReceiveBody(stream: Stream, msg: array<Byte>, total: nat) returns (ret: int)
    requires stream.Valid() && msg.Length == MSG_MAX && 2 <= total <= MSG_MAX
    modifies stream, msg
    ensures stream.Valid()
    ensures msg[0] == old(msg[0]) && msg[1] == old(msg[1])
    ensures var b := old(stream.Pending());
            if total - 2 <= |b| then
              && ret == total && msg[2..total] == b[..total - 2] && stream.Pending() == b[total - 2..]
              && stream.chunks == DropBytes(old(stream.chunks), total - 2)
            else ret == if stream.ending < 0 then stream.ending else -ENODATA
  {
    ret := stream.ReceiveAll(msg, 2, total);
  }

  /** The value `property_list_binary` returns. `errno` is the thread's value on entry: when the
      stream ends inside a header the source reports that value, not the reader's code. */
  function ListCode(how: Ending, ending: int, errno: nat): int {
    match how
    case Complete => 0
    case HeaderCut => if ending < 0 then ending else -(errno as int)
    case BodyCut => if ending < 0 then ending else -ENODATA
  }

  lemma BodyParts(b: Bytes, keyLen: nat, total: nat)
    requires 2 + keyLen <= total <= |b|
    ensures var body := b[2..total]; body[..keyLen] == b[2..2 + keyLen] && body[keyLen..] == b[2 + keyLen..total]
  {
  }

  /** One turn of the loop of `property_list_binary`. */
  method ReadItem(stream: Stream, msg: array<Byte>, errno: nat) returns (done: bool, ret: int, calls: seq<Change>)
    requires stream.Valid() && msg.Length == MSG_MAX
    modifies stream, msg
    ensures stream.Valid()
    ensures match NextListItem(old(stream.Pending()))
            case Stop(how) => done && ret == ListCode(how, stream.ending, errno)
            case Next(cs, used) => !done && calls == cs && stream.Pending() == old(stream.Pending())[used..]
  {
    done, calls := true, [];
    ghost var b := stream.Pending();
    ret := ReceiveLengths(stream, msg);
    if ret < 0 {
      ret := if stream.ending < 0 then stream.ending else -(errno as int);
      return;
    }
    var keyLen, valLen := msg[0], msg[1];
    if keyLen == 0 && valLen == 0 {
      ret := 0;
      return;
    }
    if keyLen > NAME_MAX {
      done := false;
      return;
    }
    if valLen >= VALUE_MAX {
      done := false;
      return;
    }
    var total: int := keyLen as int + valLen as int + 2;
    ret := ReceiveBody(stream, msg, total);
    if ret < 0 {
      return;
    }
    done := false;
    assert b[2..][total - 2..] == b[total..];
    var body := msg[2..total];
    assert body == b[2..total];
    assert keyLen > 0 ==> b[1 + keyLen] == body[keyLen - 1];
    if msg[1 + keyLen] != 0 {
      return;
    }
    BodyParts(b, keyLen, total);
    calls := [Change(CStr(body[..keyLen]), body[keyLen..])];
  }

  lemma PrependTwice(a: seq<Change>, b: seq<Change>, rest: Listing)
    ensures Prepend(a, Prepend(b, rest)) == Prepend(a + b, rest)
  {
    assert a + (b + rest.calls) == a + b + rest.calls;
  }

  /** One turn of the loop, seen from the whole reply. */
  method ReadNext(stream: Stream, msg: array<Byte>, errno: nat) returns (done: bool, ret: int, calls: seq<Change>)
    requires stream.Valid() && msg.Length == MSG_MAX
    modifies stream, msg
    ensures stream.Valid()
    ensures var l := DecodeList(old(stream.Pending()));
            if done then l.calls == [] && ret == ListCode(l.ending, stream.ending, errno)
            else l == Prepend(calls, DecodeList(stream.Pending())) && |stream.Pending()| < |old(stream.Pending())|
  {
    done, ret, calls := ReadItem(stream, msg, errno);
  }

  /** `property_list_binary` after its request is sent. */
  method ReadList(stream: Stream, errno: nat) returns (ret: int, calls: seq<Change>)
    requires stream.Valid()
    modifies stream
    ensures var l := DecodeList(old(stream.Pending()));
            calls == l.calls && ret == ListCode(l.ending, stream.ending, errno)
  {
    var msg := new Byte[MSG_MAX](i => 0);
    ghost var all := DecodeList(stream.Pending());
    calls := [];
    while true
      invariant stream.Valid()
      invariant all == Prepend(calls, DecodeList(stream.Pending()))
      decreases |stream.Pending()|
    {
      ghost var before := calls;
      var done, code, more := ReadNext(stream, msg, errno);
      if done {
        return code, calls;
      }
      calls := calls + more;
      PrependTwice(before, more, DecodeList(stream.Pending()));
    }
  }

  /** What the callback is given for a stored pair. */
  function CallOf(e: Entry): Change {
    Change(CStr(e.0), e.1)
  }

  function CallsOf(entries: seq<Entry>): (cs: seq<Change>)
    ensures |cs| == |entries|
    ensures forall i :: 0 <= i < |entries| ==> cs[i] == CallOf(entries[i])
  {
    if entries == [] then [] else [CallOf(entries[0])] + CallsOf(entries[1..])
  }

  /** Reading one frame back, whatever follows it. */
  lemma DecodeOneFrame(key: CString, value: Bytes, rest: Bytes)
    requires |key| < NAME_MAX && |value| < VALUE_MAX
    ensures DecodeList(Frame(key, value) + rest) == Prepend([Change(key, value)], DecodeList(rest))
  {
    var b := Frame(key, value) + rest;
    var keyLen, total := |key| + 1, |key| + |value| + 3;
    assert b[0] == keyLen && b[1] == |value|;
    assert b[1 + keyLen] == 0;
    assert b[2..2 + keyLen] == key + [0] + [];
    CStrOfTerminated(key, []);
    assert b[2 + keyLen..total] == value;
    assert b[total..] == rest;
  }

  /** The reply of the server reads back as its entries: the terminator is never taken for an entry
      and no entry is skipped. */
  lemma {:induction false} DecodeListFrames(entries: seq<Entry>)
    requires forall e :: e in entries ==> StorableKey(e.0) && |e.1| < VALUE_MAX
    ensures DecodeList(ListFrames(entries) + LIST_END) == Listing(CallsOf(entries), Complete)
    decreases |entries|
  {
    if entries == [] {
      assert ListFrames(entries) + LIST_END == LIST_END;
    } else {
      var e := entries[0];
      assert e in entries;
      var rest := ListFrames(entries[1..]) + LIST_END;
      assert ListFrames(entries) + LIST_END == Frame(CStr(e.0), e.1) + rest;
      DecodeListFrames(entries[1..]);
      DecodeOneFrame(CStr(e.0), e.1, rest);
    }
  }

  /** The callbacks are exactly the stored pairs, each once. */
  ghost predicate ExactlyOnce(es: seq<Entry>, m: map<Bytes, Bytes>) {
    && (forall i :: 0 <= i < |es| ==> es[i].0 in m && m[es[i].0] == es[i].1)
    && (forall k :: k in m ==> exists i :: 0 <= i < |es| && es[i].0 == k)
    && (forall i, j :: 0 <= i < j < |es| ==> es[i].0 != es[j].0)
  }

  lemma DbEntriesExact(m: map<Bytes, Bytes>, order: seq<Bytes>)
    requires Enumerates(order, m)
    ensures ExactlyOnce(DbEntries(m, order), m)
  {
    var es := DbEntries(m, order);
    forall k | k in m
      ensures exists i :: 0 <= i < |es| && es[i].0 == k
    {
      var i :| 0 <= i < |order| && order[i] == k;
      assert es[i].0 == k;
    }
  }

  lemma ExactlyOnceJoin(xs: seq<Entry>, a: map<Bytes, Bytes>, ys: seq<Entry>, b: map<Bytes, Bytes>)
    requires ExactlyOnce(xs, a) && ExactlyOnce(ys, b) && a.Keys !! b.Keys
    ensures ExactlyOnce(xs + ys, a + b)
  {
    var es, m := xs + ys, a + b;
    forall k | k in m
      ensures exists i :: 0 <= i < |es| && es[i].0 == k
    {
      if k in a {
        var i :| 0 <= i < |xs| && xs[i].0 == k;
        assert es[i].0 == k;
      } else {
        var i :| 0 <= i < |ys| && ys[i].0 == k;
        assert es[|xs| + i].0 == k;
      }
    }
    forall i | 0 <= i < |es|
      ensures es[i].0 in m && m[es[i].0] == es[i].1
    {
      assert es[i] == if i < |xs| then xs[i] else ys[i - |xs|];
    }
    forall i, j | 0 <= i < j < |es|
      ensures es[i].0 != es[j].0
    {
      if i < |xs| <= j {
        assert es[i].0 in a.Keys && es[j] == ys[j - |xs|] && es[j].0 in b.Keys;
      }
    }
  }

  lemma KvListExact(cfg: Config, st: Stores, cursors: Cursors)
    requires StoreInvariant(cfg, st) && CursorsOf(st, cursors)
    ensures ExactlyOnce(KvList(cfg.temporary, st, cursors), st.View())
  {
    DbEntriesExact(st.persist.cur, cursors.persist);
    DbEntriesExact(st.mem.cur, cursors.mem);
    ExactlyOnceJoin(DbEntries(st.persist.cur, cursors.persist), st.persist.cur,
                    DbEntries(st.mem.cur, cursors.mem), st.mem.cur);
    if !cfg.temporary {
      assert cursors.mem == [];
    }
  }

  lemma CleanKeyReadsWhole(k: Bytes)
    requires StorableKey(k) && NulFree(k[..|k| - 1])
    ensures CStr(k) + [0] == k
  {
    CStrOfTerminated(k[..|k| - 1], []);
    assert k == k[..|k| - 1] + [0] + [];
  }

  lemma ListReply(cfg: Config, s: State, fd: int, w: World)
    requires CursorsOf(s.stores, w.cursors) && SentTo(s.sent, fd) == []
    ensures SentTo(Handle(cfg, s, fd, List, w).state.sent, fd)
         == ListFrames(KvList(cfg.temporary, s.stores, w.cursors)) + LIST_END
  {
    var reply := ListFrames(KvList(cfg.temporary, s.stores, w.cursors)) + LIST_END;
    assert [] + reply == reply;
  }

  /** List round trip: from any store the server can be in, however the reply is cut up, the callback
      sees one call per stored pair, in cursor order, with the value intact and the key up to its
      first NUL; when the store was filled by client calls that is the whole key. */
  lemma ListRoundTrip(cfg: Config, s: State, fd: int, w: World)
    requires StoreInvariant(cfg, s.stores) && CursorsOf(s.stores, w.cursors) && SentTo(s.sent, fd) == []
    ensures var reply := SentTo(Handle(cfg, s, fd, List, w).state.sent, fd);
            var entries := KvList(cfg.temporary, s.stores, w.cursors);
            && ExactlyOnce(entries, s.stores.View())
            && DecodeList(reply) == Listing(CallsOf(entries), Complete)
            && (Clean(s.stores) ==>
                  forall i :: 0 <= i < |entries| ==> CallsOf(entries)[i].key + [0] == entries[i].0)
  {
    var entries := KvList(cfg.temporary, s.stores, w.cursors);
    KvListExact(cfg, s.stores, w.cursors);
    ListReply(cfg, s, fd, w);
    forall i | 0 <= i < |entries|
      ensures StorableKey(entries[i].0) && |entries[i].1| < VALUE_MAX
      ensures Clean(s.stores) ==> CStr(entries[i].0) + [0] == entries[i].0
    {
      var k := entries[i].0;
      assert k in s.stores.View();
      assert StorableKey(k);
      if Clean(s.stores) {
        CleanKeyReadsWhole(k);
      }
    }
    DecodeListFrames(entries);
  }

  lemma SkipOne(b: Bytes, used: nat)
    requires NextListItem(b) == Next([], used)
    ensures DecodeList(b) == DecodeList(b[used..])
  {
  }

  /** What is skipped: the two length bytes alone when they announce a key over 127 bytes or a value of
      255; and a whole entry that announces no key, or whose key does not end in a NUL. */
  lemma ListSkips(b: Bytes, total: int)
    requires |b| >= 2 && (b[0] > 0 || b[1] > 0) && total == b[0] as int + b[1] as int + 2
    ensures b[0] > 127 || b[1] == 255 ==> DecodeList(b) == DecodeList(b[2..])
    ensures b[0] <= 127 && b[1] < 255 && total <= |b| && (b[0] > 0 ==> b[1 + b[0]] != 0) ==>
              DecodeList(b) == DecodeList(b[total..])
  {
    if b[0] > 127 || b[1] == 255 {
      SkipOne(b, 2);
    } else if total <= |b| && (b[0] > 0 ==> b[1 + b[0]] != 0) {
      SkipOne(b, total);
    }
  }

  /** The persistent database is listed before the other one. */
  lemma PersistentFirst(cfg: Config, st: Stores, cursors: Cursors, i: nat, j: nat)
    requires StoreInvariant(cfg, st) && CursorsOf(st, cursors)
    requires i < j < |KvList(cfg.temporary, st, cursors)|
    ensures var es := KvList(cfg.temporary, st, cursors);
            [112, 101, 114, 115, 105, 115, 116, 46] <= es[j].0 ==> [112, 101, 114, 115, 105, 115, 116, 46] <= es[i].0
  {
    var n := |cursors.persist|;
    if j >= n {
      assert cursors.mem[j - n] in st.mem.cur;
    } else {
      assert cursors.persist[i] in st.persist.cur;
    }
  }

  /** A complete list returns 0, and a list cut inside an entry or before its end the error that cut it,
      -ENODATA, or the old `errno`. */
  lemma ListReturns(b: Bytes, ending: int, errno: nat)
    requires ending <= 0
    ensures var l := DecodeList(b);
            var ret := ListCode(l.ending, ending, errno);
            && (l.ending == Complete ==> ret == 0)
            && (l.ending != Complete && ending < 0 ==> ret == ending)
            && (l.ending == BodyCut && ending == 0 ==> ret == -61)
            && (l.ending == HeaderCut && ending == 0 ==> ret == -(errno as int))
  {
  }

  /** The bytes sent for the byte 'L' on a connection read back as every stored pair once. */
  lemma ListRequest(cfg: Config, s: State, e: Event) returns (entries: seq<Entry>)
    requires Owned(cfg, s) && StoreInvariant(cfg, s.stores) && ValidEvent(cfg, s, e)
    requires !e.Reboot? && e.io.Accept? && Flatten(e.io.chunks) == [76]
    ensures ExactlyOnce(entries, s.stores.View())
    ensures DecodeList(SentTo(Step(cfg, s, e).sent, e.io.fd)) == Listing(CallsOf(entries), Complete)
    ensures Clean(s.stores) ==> forall i :: 0 <= i < |entries| ==> CallsOf(entries)[i].key + [0] == entries[i].0
  {
    var top := AtTop(cfg, s, e);
    var a := Accepted(top, e.io.fd);
    OneByteRequests(e.io.chunks);
    TopStores(cfg, s, e);
    TopKeepsInvariant(cfg, s, e);
    assert Clean(s.stores) ==> Clean(top.stores);
    ListRoundTrip(cfg, a, e.io.fd, e.io.world);
    entries := KvList(cfg.temporary, top.stores, e.io.world.cursors);
  }

  // ---------------------------------------------------------------------------------------------
  // property_monitor_read

  datatype Reading =
    | HeaderLost            // fewer than two bytes came with the first piece
    | KeyTooBig
    | FrameCut              // the stream ended inside the frame
    | Got(change: Change, used: nat)

  /** One read: the two length bytes must come in one piece, the rest is awaited. The key is read as a
      C string from the start of the frame's body. */
  function ReadNote(chunks: seq<Bytes>): Reading {
    var b := Flatten(chunks);
    if |Taken(chunks, 2)| < 2 || |b| < 2 then HeaderLost
    else if b[0] > NAME_MAX then KeyTooBig
    else
      var keyLen: int := b[0];
      var total: int := keyLen + b[1] as int + 2;
      if total > |b| then FrameCut
      else Got(Change(CStr(b[2..total]), b[2 + keyLen..total]), total)
  }

  /** The announced frame holds a NUL, as every frame of the server does. Without one the source copies
      a key that does not end inside the frame. */
  predicate KeyEnds(b: Bytes) {
    |b| >= 2 && b[0] as int + b[1] as int + 2 <= |b| ==> 0 in b[2..b[0] as int + b[1] as int + 2]
  }

  /** The code reported when a read does not deliver a change. */
  function FailureCode(reading: Reading, chunks: seq<Bytes>, ending: int): int {
    match reading
    case HeaderLost => if chunks == [] && ending < 0 then ending else -ENODATA
    case KeyTooBig => -E2BIG
    case _ => if ending < 0 then ending else -ENODATA
  }

  /** The codes of a read that delivers nothing: E2BIG for a key over 127 bytes, the error of the socket if
      there is one, and ENODATA otherwise; a first piece of one byte is ENODATA in any case. */
  lemma ReadFails(chunks: seq<Bytes>, ending: int)
    requires NonEmptyChunks(chunks) && ending <= 0 && !ReadNote(chunks).Got?
    ensures var code := FailureCode(ReadNote(chunks), chunks, ending);
            if chunks == [] then code == (if ending < 0 then ending else -61)
            else if |chunks[0]| < 2 then code == -61
            else if chunks[0][0] > 127 then code == -7
            else code == if ending < 0 then ending else -61
  {
  }

  /** `recv(fd, msg, 2, 0)`: one call. */
  method ReceiveHeader(stream: Stream, msg: array<Byte>) returns (got: int)
    requires stream.Valid() && msg.Length == MSG_MAX
    modifies stream, msg
    ensures stream.Valid()
    ensures var b := old(stream.Pending());
            if |Taken(old(stream.chunks), 2)| < 2 || |b| < 2 then
              got < 2 && (got < 0 ==> old(stream.chunks) == [] && got == stream.ending)
              && (old(stream.chunks) == [] ==> got == stream.ending)
            else
              && got == 2 && msg[0] == b[0] && msg[1] == b[1]
              && stream.Pending() == b[2..] && stream.chunks == DropBytes(old(stream.chunks), 2)
  {
    got := stream.Recv(msg, 0, 2);
    if old(stream.chunks) != [] {
      RemainingIsDrop(old(stream.chunks), 2);
    }
  }

  /** The receiving half of `property_monitor_read`. */
  method ReceiveNote(stream: Stream) returns (ret: int, change: Change)
    requires stream.Valid()
    modifies stream
    ensures stream.Valid()
    ensures var reading := ReadNote(old(stream.chunks));
            if reading.Got? then
              ret >= 0 && change == reading.change && stream.chunks == DropBytes(old(stream.chunks), reading.used)
            else ret < 0 && ret == FailureCode(reading, old(stream.chunks), stream.ending)
  {
    change := Change([], []);
    var msg := new Byte[MSG_MAX](i => 0);
    ghost var b, chunks := stream.Pending(), stream.chunks;
    var got := ReceiveHeader(stream, msg);
    if got < 2 {
      return if got < 0 then got else -ENODATA, change;
    }
    if msg[0] > NAME_MAX {
      return -E2BIG, change;
    }
    var total: int := msg[0] as int + msg[1] as int + 2;
    if total <= |b| {
      PendingParts(b, msg[0], total);
    }
    ret, change := ReceiveRest(stream, msg, total);
    DropDrop(chunks, 2, total - 2);
  }

  lemma PendingParts(b: Bytes, keyLen: nat, total: nat)
    requires 2 + keyLen <= total <= |b|
    ensures var p := b[2..]; p[..total - 2] == b[2..total] && p[keyLen..total - 2] == b[2 + keyLen..total]
  {
  }

  /** The key and value of a frame whose two length bytes are in `msg`. */
  method ReceiveRest(stream: Stream, msg: array<Byte>, total: int) returns (ret: int, change: Change)
    requires stream.Valid() && msg.Length == MSG_MAX
    requires msg[0] <= NAME_MAX && total == msg[0] as int + msg[1] as int + 2
    modifies stream, msg
    ensures stream.Valid()
    ensures var p, keyLen := old(stream.Pending()), old(msg[0]);
            if total - 2 <= |p| then
              && ret >= 0 && stream.chunks == DropBytes(old(stream.chunks), total - 2)
              && change == Change(CStr(p[..total - 2]), p[keyLen..total - 2])
            else ret < 0 && ret == if stream.ending < 0 then stream.ending else -ENODATA
  {
    change := Change([], []);
    var keyLen := msg[0];
    ghost var p := stream.Pending();
    ret := ReceiveBody(stream, msg, total);
    if ret < 0 {
      return;
    }
    var body := msg[2..total];
    assert body == p[..total - 2];
    assert body[keyLen..] == p[keyLen..total - 2];
    change := Change(CStr(body), body[keyLen..]);
  }

  /** `property_monitor_read`; either destination may be null. */
  method MonitorRead(stream: Stream, newkey: array?<Byte>, newvalue: array?<Byte>, valLen: nat) returns (ret: int)
    requires stream.Valid()
    requires newkey != null ==> newkey.Length >= NAME_MAX && newkey != newvalue && KeyEnds(stream.Pending())
    requires newvalue != null ==> valLen <= newvalue.Length
    modifies stream, newkey, newvalue
    ensures stream.Valid()
    ensures var reading := ReadNote(old(stream.chunks));
            if !reading.Got? then ret < 0 && ret == FailureCode(reading, old(stream.chunks), stream.ending)
            else
              var c := reading.change;
              && ret == (if newvalue == null then |c.value| else Min(valLen, |c.value|))
              && (newkey != null ==> var n := Min(|c.key|, NAME_MAX - 1); newkey[..n + 1] == c.key[..n] + [0])
              && (newvalue != null ==> newvalue[..ret] == c.value[..ret])
              && stream.chunks == DropBytes(old(stream.chunks), reading.used)
  {
    var code, change := ReceiveNote(stream);
    if code < 0 {
      return code;
    }
    if newkey != null {
      CopyOut(newkey, change.key[..Min(|change.key|, NAME_MAX - 1)] + [0]);
    }
    ret := |change.value|;
    if newvalue != null {
      ret := if valLen > ret then ret else valLen;
      CopyOut(newvalue, change.value[..ret]);
    }
  }

  /** `memcpy` or `strlcpy` into a caller's buffer. */
  method CopyOut(dst: array<Byte>, src: Bytes)
    requires |src| <= dst.Length
    modifies dst
    ensures dst[..|src|] == src
    ensures forall i :: |src| <= i < dst.Length ==> dst[i] == old(dst[i])
  {
    forall i | 0 <= i < |src| {
      dst[i] := src[i];
    }
  }

  lemma FrameParts(b: Bytes, c: Change, rest: Bytes)
    requires b == Frame(c.key, c.value) + rest && Fits(c)
    ensures var keyLen, total := |c.key| + 1, |c.key| + |c.value| + 3;
            && total == |Frame(c.key, c.value)| <= |b|
            && b[0] == keyLen && b[1] == |c.value|
            && b[2..total] == c.key + [0] + c.value && b[2 + keyLen..total] == c.value
  {
  }

  lemma FrameKey(b: Bytes, c: Change, rest: Bytes)
    requires b == Frame(c.key, c.value) + rest && Fits(c)
    ensures KeyEnds(b) && CStr(b[2..|c.key| + |c.value| + 3]) == c.key
  {
    FrameParts(b, c, rest);
    CStrOfTerminated(c.key, c.value);
    assert b[2..|c.key| + |c.value| + 3][|c.key|] == 0;
  }

  lemma FirstTwo(chunks: seq<Bytes>)
    requires NonEmptyChunks(chunks) && |Flatten(chunks)| >= 2
    ensures chunks != [] && (|Taken(chunks, 2)| >= 2 <==> |chunks[0]| >= 2)
  {
  }

  /** One frame is recovered exactly when its two length bytes arrive in one piece. */
  lemma ReadNoteOfFrame(chunks: seq<Bytes>, c: Change, rest: Bytes)
    requires NonEmptyChunks(chunks) && Flatten(chunks) == Frame(c.key, c.value) + rest && Fits(c)
    ensures KeyEnds(Flatten(chunks))
    ensures chunks != []
    ensures ReadNote(chunks) == Got(c, |Frame(c.key, c.value)|) <==> |chunks[0]| >= 2
  {
    FrameParts(Flatten(chunks), c, rest);
    FrameKey(Flatten(chunks), c, rest);
    FirstTwo(chunks);
  }

  /** What a client that keeps reading receives. */
  ghost function ReadNotes(chunks: seq<Bytes>): seq<Change>
    requires NonEmptyChunks(chunks)
    decreases |Flatten(chunks)|
  {
    match ReadNote(chunks)
    case Got(c, used) =>
      FlattenDrop(chunks, used);
      DropDrop(chunks, used, 0);
      [c] + ReadNotes(DropBytes(chunks, used))
    case _ => []
  }

  /** Each frame's two length bytes arrive in one piece. */
  ghost predicate HeadersWhole(chunks: seq<Bytes>, cs: seq<Change>)
    decreases |cs|
  {
    cs == [] || (chunks != [] && |chunks[0]| >= 2
                 && HeadersWhole(DropBytes(chunks, |Frame(cs[0].key, cs[0].value)|), cs[1..]))
  }

  /** Repeated reads recover a sequence of frames exactly when no header is split. */
  lemma {:induction false} ReadNotesOfFrames(chunks: seq<Bytes>, cs: seq<Change>)
    requires NonEmptyChunks(chunks) && Flatten(chunks) == Frames(cs)
    requires forall c :: c in cs ==> Fits(c)
    ensures ReadNotes(chunks) == cs <==> HeadersWhole(chunks, cs)
    decreases |cs|
  {
    if cs != [] {
      var used := |Frame(cs[0].key, cs[0].value)|;
      assert cs[0] in cs;
      ReadNoteOfFrame(chunks, cs[0], Frames(cs[1..]));
      if |chunks[0]| >= 2 {
        FlattenDrop(chunks, used);
        DropDrop(chunks, used, 0);
        var rest := DropBytes(chunks, used);
        assert Flatten(chunks)[used..] == Frames(cs[1..]);
        ReadNotesOfFrames(rest, cs[1..]);
        assert ReadNotes(chunks) == [cs[0]] + ReadNotes(rest);
        assert ReadNotes(chunks)[1..] == ReadNotes(rest);
      }
    }
  }

  lemma MatchingFits(cfg: Config, pattern: CString, cs: seq<Change>)
    requires forall c :: c in cs ==> Fits(c)
    ensures forall c :: c in Matching(cfg, pattern, cs) ==> Fits(c)
  {
    MatchingIsPart(cfg, pattern, cs);
  }

  /** The bytes of a monitor's stream behind its acknowledgement arrive in these pieces. */
  ghost predicate BehindAck(sent: Bytes, chunks: seq<Bytes>) {
    NonEmptyChunks(chunks) && sent == Word32(0) + Flatten(chunks)
  }

  lemma SamePart(ack: Bytes, a: Bytes, b: Bytes)
    requires ack + a == ack + b
    ensures a == b
  {
    assert (ack + a)[|ack|..] == a && (ack + b)[|ack|..] == b;
  }

  lemma ReadsAfterAck(cfg: Config, pattern: CString, changes: seq<Change>, sent: Bytes, chunks: seq<Bytes>)
    requires ExactBytes(cfg, pattern, sent, changes) && BehindAck(sent, chunks)
    requires forall c :: c in changes ==> Fits(c)
    ensures var cs := Matching(cfg, pattern, changes); ReadNotes(chunks) == cs <==> HeadersWhole(chunks, cs)
  {
    var cs := Matching(cfg, pattern, changes);
    SamePart(Word32(0), Flatten(chunks), Frames(cs));
    MatchingFits(cfg, pattern, changes);
    ReadNotesOfFrames(chunks, cs);
  }

  /** A monitor's stream since event `r`, as plain values. */
  lemma StreamSince(cfg: Config, s: State, es: seq<Event>, w: Watcher, r: int, sent: Bytes, changes: seq<Change>)
    requires ValidRun(cfg, s, es) && ExactSince(cfg, s, es, w, r)
    requires sent == SentTo(Run(cfg, s, es).sent, w.fd) && changes == ChangesSince(cfg, s, es, r + 1)
    ensures ExactBytes(cfg, w.pattern, sent, changes) && forall c :: c in changes ==> Fits(c)
  {
    ChangesFit(cfg, s, es, r + 1);
  }

  /** A monitoring client reads exactly the matching changes: for every run and every monitor on the
      list, and in whatever pieces the bytes sent after the acknowledgement reach the client, repeated
      reads return the successful sets and deletes since registration that match the pattern, in
      order, none lost and none added, if and only if no piece ends inside a frame's header. */
  lemma MonitorSeesMatchingChanges(cfg: Config, s: State, es: seq<Event>, w: Watcher, chunks: seq<Bytes>)
    returns (r: int)
    requires Owned(cfg, s) && Descriptors.Stray(cfg, s) == {} && Fds(s.watchers) == {} && ValidRun(cfg, s, es)
    requires w in Run(cfg, s, es).watchers && BehindAck(SentTo(Run(cfg, s, es).sent, w.fd), chunks)
    ensures LastAccepted(es, w.fd, r) && Registers(es[r], w)
    ensures var expected := Matching(cfg, w.pattern, ChangesSince(cfg, s, es, r + 1));
            ReadNotes(chunks) == expected <==> HeadersWhole(chunks, expected)
  {
    r := StreamsAreExact(cfg, s, es, w);
    var sent, changes := SentTo(Run(cfg, s, es).sent, w.fd), ChangesSince(cfg, s, es, r + 1);
    StreamSince(cfg, s, es, w, r, sent, changes);
    ReadsAfterAck(cfg, w.pattern, changes, sent, chunks);
  }
}
