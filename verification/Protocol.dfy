/** The request frames of the wire protocol: the client's encoders (kvdb/client.c) against the
    server's decoder (`kvdb_client`, `kvdb_recv`, kvdb/server.c). */
module Protocol {
  import opened ByteStrings
  import opened Streams

  const OP_COMMIT: Byte := 67   // 'C'
  const OP_DELETE: Byte := 68   // 'D'
  const OP_GET: Byte := 71      // 'G'
  const OP_LIST: Byte := 76     // 'L'
  const OP_MONITOR: Byte := 77  // 'M'
  const OP_RELOAD: Byte := 82   // 'R'
  const OP_SET: Byte := 83      // 'S'

  /** A request as the server decodes it. Keys carry the bytes the length field announced. */
  datatype Request =
    | Set(key: Bytes, value: Bytes)
    | Get(key: Bytes, room: nat)
    | Delete(key: Bytes)
    | List
    | Commit
    | Reload
    | Monitor(pattern: CString)
    | UnsizedMonitor  // a pattern of announced length zero
    | Ignored  // closed at once, cut short, oversized or with an unknown opcode

  // ---------------------------------------------------------------------------------------------
  // Encoders

  function EncodeSet(key: CString, value: Bytes): Bytes
    requires |key| < NAME_MAX && |value| < VALUE_MAX
  {
    [OP_SET, |key| + 1, |value|] + key + [0] + value
  }

  /** The room is sent in one byte, so only its low eight bits travel. */
  function EncodeGet(key: CString, room: nat): Bytes
    requires |key| < NAME_MAX
  {
    [OP_GET, |key| + 1, room % 256] + key + [0]
  }

  function EncodeDelete(key: CString): Bytes
    requires |key| < NAME_MAX
  {
    [OP_DELETE, |key| + 1] + key + [0]
  }

  function EncodeMonitor(pattern: CString): Bytes
    requires |pattern| < NAME_MAX
  {
    [OP_MONITOR, |pattern| + 1] + pattern + [0]
  }

  // ---------------------------------------------------------------------------------------------
  // Decoder

  /** A header byte of the message buffer after the first `recv`; the buffer starts zeroed. */
  function Header(chunks: seq<Bytes>, i: nat): Byte {
    var first := Taken(chunks, MSG_MAX);
    if i < |first| then first[i] else 0
  }

  /** The request in a message, given the three header bytes as they were when the lengths were
      read; the rest of the frame is awaited in full. */
  function Decode(whole: Bytes, op: Byte, keyLen: Byte, valLen: Byte): Request {
    if op == OP_DELETE then
      if keyLen + 2 > |whole| then Ignored else Delete(whole[2..keyLen + 2])
    else if op == OP_GET then
      if keyLen + 3 > |whole| then Ignored else Get(whole[3..keyLen + 3], valLen)
    else if op == OP_SET then
      var end := keyLen + valLen + 3;
      if end >= MSG_MAX || end > |whole| then Ignored
      else Set(whole[3..keyLen + 3], whole[keyLen + 3..end])
    else if op == OP_LIST then List
    else if op == OP_COMMIT then Commit
    else if op == OP_RELOAD then Reload
    else if op == OP_MONITOR then
      if keyLen + 2 > |whole| || whole[keyLen + 1] != 0 then Ignored
      else if keyLen == 0 then UnsizedMonitor
      else Monitor(CStr(whole[2..keyLen + 2]))
    else Ignored
  }

  function Parse(chunks: seq<Bytes>): Request {
    if Taken(chunks, MSG_MAX) == [] then Ignored
    else Decode(Flatten(chunks), Header(chunks, 0), Header(chunks, 1), Header(chunks, 2))
  }

  /** The receiving half of `kvdb_client`: one message buffer of MSG_MAX bytes, one `recv`, then
      `kvdb_recv` up to the end of the frame. Every access is inside the buffer. */
  method ReadRequest(stream: Stream) returns (req: Request)
    requires stream.Valid()
    modifies stream
    ensures req == Parse(old(stream.chunks))
  {
    var msg := new Byte[MSG_MAX](i => 0);
    ghost var whole := stream.Pending();
    ghost var first := Taken(stream.chunks, MSG_MAX);
    var len := stream.Recv(msg, 0, MSG_MAX);
    if len <= 0 {
      return Ignored;
    }
    assert forall i :: 0 <= i < len ==> msg[i] == whole[i] == first[i];
    assert forall i :: 0 <= i < 3 ==> msg[i] == Header(old(stream.chunks), i);
    assert stream.Pending() == whole[len..];
    req := ReadFrame(stream, msg, len, whole);
  }

  /** The first `len` bytes of a message are in the buffer, the rest is pending. */
  ghost predicate Begun(stream: Stream, msg: array<Byte>, len: nat, whole: Bytes)
    reads stream, msg
  {
    && stream.Valid() && msg.Length == MSG_MAX && 0 < len <= MSG_MAX && len <= |whole|
    && stream.Pending() == whole[len..]
    && forall i :: 0 <= i < len ==> msg[i] == whole[i]
  }

  /** The switch on the opcode, after a first piece of `len` bytes. */
  method ReadFrame(stream: Stream, msg: array<Byte>, len: nat, ghost whole: Bytes) returns (req: Request)
    requires Begun(stream, msg, len, whole) && (len == 1 ==> msg[1] == 0)
    modifies stream, msg
    ensures req == Decode(whole, old(msg[0]), old(msg[1]), old(msg[2]))
  {
    var op, keyLen, valLen := msg[0], msg[1], msg[2];
    if op == OP_DELETE {
      req := ReadDelete(stream, msg, len, keyLen, whole);
    } else if op == OP_GET {
      req := ReadGet(stream, msg, len, keyLen, valLen, whole);
    } else if op == OP_SET {
      req := ReadSet(stream, msg, len, keyLen, valLen, whole);
    } else if op == OP_LIST {
      req := List;
    } else if op == OP_COMMIT {
      req := Commit;
    } else if op == OP_RELOAD {
      req := Reload;
    } else if op == OP_MONITOR {
      req := ReadMonitor(stream, msg, len, keyLen, whole);
    } else {
      req := Ignored;
    }
  }

  method ReadDelete(stream: Stream, msg: array<Byte>, len: nat, keyLen: Byte, ghost whole: Bytes) returns (req: Request)
    requires Begun(stream, msg, len, whole)
    modifies stream, msg
    ensures req == if keyLen + 2 > |whole| then Ignored else Delete(whole[2..keyLen + 2])
  {
    var end: int := keyLen as int + 2;
    if end >= MSG_MAX {
      return Ignored;
    }
    var got := ReadBody(stream, msg, len, end, whole);
    if got <= 0 {
      return Ignored;
    }
    SliceOfPrefix(msg[..], whole, 2, end, end);
    req := Delete(msg[2..end]);
  }

  method ReadGet(stream: Stream, msg: array<Byte>, len: nat, keyLen: Byte, valLen: Byte, ghost whole: Bytes)
    returns (req: Request)
    requires Begun(stream, msg, len, whole)
    modifies stream, msg
    ensures req == if keyLen + 3 > |whole| then Ignored else Get(whole[3..keyLen + 3], valLen)
  {
    var end: int := keyLen as int + 3;
    if end >= MSG_MAX {
      return Ignored;
    }
    var got := ReadBody(stream, msg, len, end, whole);
    if got <= 0 {
      return Ignored;
    }
    SliceOfPrefix(msg[..], whole, 3, end, end);
    req := Get(msg[3..end], valLen);
  }

  method ReadSet(stream: Stream, msg: array<Byte>, len: nat, keyLen: Byte, valLen: Byte, ghost whole: Bytes)
    returns (req: Request)
    requires Begun(stream, msg, len, whole)
    modifies stream, msg
    ensures var end := keyLen + valLen + 3;
            req == if end >= MSG_MAX || end > |whole| then Ignored
                   else Set(whole[3..keyLen + 3], whole[keyLen + 3..end])
  {
    var end: int := keyLen as int + valLen as int + 3;
    if end >= MSG_MAX {
      return Ignored;
    }
    var got := ReadBody(stream, msg, len, end, whole);
    if got <= 0 {
      return Ignored;
    }
    SliceOfPrefix(msg[..], whole, 3, keyLen + 3, end);
    SliceOfPrefix(msg[..], whole, keyLen + 3, end, end);
    req := Set(msg[3..keyLen + 3], msg[keyLen + 3..end]);
  }

  /** A pattern of no length passes the test as well: see PatternFits. */
  method ReadMonitor(stream: Stream, msg: array<Byte>, len: nat, keyLen: Byte, ghost whole: Bytes) returns (req: Request)
    requires Begun(stream, msg, len, whole)
    modifies stream, msg
    ensures req == if keyLen + 2 > |whole| || whole[keyLen + 1] != 0 then Ignored
                   else if keyLen == 0 then UnsizedMonitor
                   else Monitor(CStr(whole[2..keyLen + 2]))
  {
    var end: int := keyLen as int + 2;
    if end >= MSG_MAX {
      return Ignored;
    }
    var got := ReadBody(stream, msg, len, end, whole);
    if got < 0 {
      return Ignored;
    }
    assert msg[1 + keyLen] == msg[..end][1 + keyLen];
    if msg[1 + keyLen] != 0 {
      return Ignored;
    }
    SliceOfPrefix(msg[..], whole, 2, end, end);
    req := if keyLen == 0 then UnsizedMonitor else Monitor(CStr(msg[2..end]));
  }

  lemma SliceOfPrefix(a: Bytes, b: Bytes, lo: nat, hi: nat, n: nat)
    requires lo <= hi <= n <= |a| && n <= |b| && a[..n] == b[..n]
    ensures a[lo..hi] == b[lo..hi]
  {
    assert a[lo..hi] == a[..n][lo..hi] && b[lo..hi] == b[..n][lo..hi];
  }

  /** `kvdb_recv(fd, msg, len, end)`. */
  method ReadBody(stream: Stream, msg: array<Byte>, len: nat, end: nat, ghost whole: Bytes) returns (got: int)
    requires stream.Valid() && 0 < end <= msg.Length && len <= msg.Length
    requires len <= |whole| && stream.Pending() == whole[len..]
    requires forall i :: 0 <= i < len ==> msg[i] == whole[i]
    modifies stream, msg
    ensures if end <= |whole| then got == end && msg[..end] == whole[..end] else got < 0
  {
    ghost var pending := stream.Pending();
    got := stream.ReceiveAll(msg, len, end);
    if end <= |whole| {
      forall i | 0 <= i < end
        ensures msg[i] == whole[i]
      {
        if len <= i {
          assert msg[i] == msg[len..end][i - len] == pending[i - len];
        }
      }
    }
  }

  // ---------------------------------------------------------------------------------------------
  // Framing does not depend on fragmentation, provided the header is in the first piece

  lemma FirstPiece(chunks: seq<Bytes>)
    requires NonEmptyChunks(chunks) && chunks != []
    requires |Flatten(chunks)| <= MSG_MAX
    ensures Taken(chunks, MSG_MAX) == chunks[0] && 0 < |chunks[0]| <= |Flatten(chunks)|
    ensures chunks[0] <= Flatten(chunks)
  {
  }

  /** A set request is understood exactly when its three header bytes arrive together. */
  lemma SetFraming(key: CString, value: Bytes, chunks: seq<Bytes>)
    requires |key| < NAME_MAX && 0 < |value| < VALUE_MAX
    requires NonEmptyChunks(chunks) && Flatten(chunks) == EncodeSet(key, value)
    ensures Parse(chunks) == Set(key + [0], value) <==> |chunks[0]| >= 3
  {
    var whole := EncodeSet(key, value);
    FirstPiece(chunks);
    assert whole[3..|key| + 4] == key + [0];
    assert whole[|key| + 4..] == value;
    if |chunks[0]| >= 3 {
      assert forall i :: 0 <= i < 3 ==> Header(chunks, i) == whole[i];
    }
  }

  /** With a split header it is taken for another request: with two bytes of it in the first piece, for
      a set of the empty value; with one, for a set of the empty key, which the store refuses. */
  lemma SetMisread(key: CString, value: Bytes, chunks: seq<Bytes>)
    requires |key| < NAME_MAX && 0 < |value| < VALUE_MAX
    requires NonEmptyChunks(chunks) && Flatten(chunks) == EncodeSet(key, value)
    ensures |chunks[0]| == 2 ==> Parse(chunks) == Set(key + [0], [])
    ensures |chunks[0]| == 1 ==> Parse(chunks) == Set([], [])
  {
    var whole := EncodeSet(key, value);
    FirstPiece(chunks);
    assert whole[3..|key| + 4] == key + [0];
  }

  /** A get request likewise; when the announced room is zero the third byte does not matter. */
  lemma GetFraming(key: CString, room: nat, chunks: seq<Bytes>)
    requires |key| < NAME_MAX
    requires NonEmptyChunks(chunks) && Flatten(chunks) == EncodeGet(key, room)
    ensures Parse(chunks) == Get(key + [0], room % 256)
       <==> |chunks[0]| >= if room % 256 == 0 then 2 else 3
  {
    var whole := EncodeGet(key, room);
    FirstPiece(chunks);
    assert whole[3..|key| + 4] == key + [0];
  }

  /** With a split header it asks for no bytes, and of no key if only one byte of it comes first. */
  lemma GetMisread(key: CString, room: nat, chunks: seq<Bytes>)
    requires |key| < NAME_MAX
    requires NonEmptyChunks(chunks) && Flatten(chunks) == EncodeGet(key, room)
    ensures |chunks[0]| == 2 ==> Parse(chunks) == Get(key + [0], 0)
    ensures |chunks[0]| == 1 ==> Parse(chunks) == Get([], 0)
  {
    var whole := EncodeGet(key, room);
    FirstPiece(chunks);
    assert whole[3..|key| + 4] == key + [0];
  }

  lemma DeleteFraming(key: CString, chunks: seq<Bytes>)
    requires |key| < NAME_MAX
    requires NonEmptyChunks(chunks) && Flatten(chunks) == EncodeDelete(key)
    ensures Parse(chunks) == Delete(key + [0]) <==> |chunks[0]| >= 2
  {
    var whole := EncodeDelete(key);
    FirstPiece(chunks);
    assert whole[2..|key| + 3] == key + [0];
  }

  lemma DeleteMisread(key: CString, chunks: seq<Bytes>)
    requires |key| < NAME_MAX
    requires NonEmptyChunks(chunks) && Flatten(chunks) == EncodeDelete(key)
    ensures |chunks[0]| == 1 ==> Parse(chunks) == Delete([])
  {
    FirstPiece(chunks);
  }

  lemma MonitorFraming(pattern: CString, chunks: seq<Bytes>)
    requires |pattern| < NAME_MAX
    requires NonEmptyChunks(chunks) && Flatten(chunks) == EncodeMonitor(pattern)
    ensures Parse(chunks) == Monitor(pattern) <==> |chunks[0]| >= 2
  {
    var whole := EncodeMonitor(pattern);
    FirstPiece(chunks);
    assert whole[2..|pattern| + 3] == pattern + [0] + [];
    CStrOfTerminated(pattern, []);
  }

  /** The byte tested before a pattern is copied is the last one announced. For an announced length of
      zero that is the length byte itself, which is zero, so the test passes. */
  lemma UnsizedExactly(chunks: seq<Bytes>)
    requires NonEmptyChunks(chunks)
    ensures var whole := Flatten(chunks);
            Parse(chunks).UnsizedMonitor? <==> |whole| >= 2 && whole[0] == OP_MONITOR && whole[1] == 0
  {
    if chunks != [] {
      assert chunks[0][0] == Flatten(chunks)[0];
    }
  }

  /** What a frame that reaches a registration says: its last announced byte is a NUL. */
  lemma MonitorFrame(chunks: seq<Bytes>)
    requires NonEmptyChunks(chunks) && (Parse(chunks).Monitor? || Parse(chunks).UnsizedMonitor?)
    ensures var whole, announced := Flatten(chunks), Header(chunks, 1);
            && announced + 2 <= |whole| && whole[announced + 1] == 0
            && Parse(chunks) == if announced == 0 then UnsizedMonitor else Monitor(CStr(whole[2..announced + 2]))
  {
  }

  /** Bytes behind a NUL do not matter to a C string. */
  lemma CStrStops(b: Bytes, behind: Bytes)
    requires b != [] && b[|b| - 1] == 0
    ensures CStr(b + behind) == CStr(b) && |CStr(b)| + 1 <= |b|
  {
    var n := StrLen(b);
    var all := b + behind;
    assert forall i :: 0 <= i < n ==> all[i] == b[i];
    assert all[n] == b[n] == 0;
  }

  /** A registration makes room for the announced length and copies the pattern as a C string, which
      ends at the first NUL of the frame or of whatever lies behind it. The copy with its NUL stays
      within that room, and is the pattern of the request, exactly when the length is not zero. */
  lemma PatternFits(chunks: seq<Bytes>, behind: Bytes)
    requires NonEmptyChunks(chunks) && (Parse(chunks).Monitor? || Parse(chunks).UnsizedMonitor?)
    ensures var whole, announced := Flatten(chunks), Header(chunks, 1);
            && announced + 2 <= |whole|
            && var copied := CStr(whole[2..announced + 2] + behind);
               && (|copied| + 1 <= announced <==> announced != 0)
               && (Parse(chunks) == Monitor(copied) <==> announced != 0)
  {
    MonitorFrame(chunks);
    var whole, announced := Flatten(chunks), Header(chunks, 1);
    if announced != 0 {
      CStrStops(whole[2..announced + 2], behind);
    }
  }

  /** The requests of one byte: 'C', 'L' and 'R'. */
  lemma OneByteRequests(chunks: seq<Bytes>)
    requires NonEmptyChunks(chunks)
    ensures Flatten(chunks) == [67] ==> Parse(chunks) == Commit
    ensures Flatten(chunks) == [76] ==> Parse(chunks) == List
    ensures Flatten(chunks) == [82] ==> Parse(chunks) == Reload
  {
    if chunks != [] && |Flatten(chunks)| == 1 {
      FirstPiece(chunks);
    }
  }

  /** The frames as they are on the wire, and what their first byte says: the request is of that kind, or
      the frame is ignored. */
  lemma FramesOnTheWire(key: CString, value: Bytes, room: nat)
    requires |key| < NAME_MAX && |value| < VALUE_MAX
    ensures EncodeSet(key, value) == [83, |key| + 1, |value|] + key + [0] + value
    ensures EncodeGet(key, room) == [71, |key| + 1, room % 256] + key + [0]
    ensures EncodeDelete(key) == [68, |key| + 1] + key + [0]
    ensures EncodeMonitor(key) == [77, |key| + 1] + key + [0]
  {
  }

  /** Frames of any content, behind a header that comes in one piece: a set is ignored when it announces
      385 bytes or more, and otherwise every frame is taken as announced; what follows it is not read. */
  lemma AnyFrame(key: Bytes, value: Bytes, room: Byte, rest: Bytes, chunks: seq<Bytes>)
    requires |key| <= 255 && |value| <= 255 && NonEmptyChunks(chunks) && chunks != [] && |chunks[0]| >= 3
    ensures Flatten(chunks) == [83, |key|, |value|] + key + value + rest ==>
              Parse(chunks) == if |key| + |value| + 3 >= 385 then Ignored else Set(key, value)
    ensures Flatten(chunks) == [71, |key|, room] + key + rest ==> Parse(chunks) == Get(key, room)
    ensures Flatten(chunks) == [68, |key|] + key + rest ==> Parse(chunks) == Delete(key)
  {
    var whole := Flatten(chunks);
    FirstBytes(chunks);
    if whole == [83, |key|, |value|] + key + value + rest {
      assert whole[3..|key| + 3] == key && whole[|key| + 3..|key| + |value| + 3] == value;
    }
    if whole == [71, |key|, room] + key + rest {
      assert whole[3..|key| + 3] == key;
    }
    if whole == [68, |key|] + key + rest {
      assert whole[2..|key| + 2] == key;
    }
  }

  lemma FirstBytes(chunks: seq<Bytes>)
    requires chunks != [] && |chunks[0]| >= 3
    ensures Taken(chunks, MSG_MAX) != []
    ensures forall i :: 0 <= i < 3 ==> Header(chunks, i) == Flatten(chunks)[i]
  {
  }

  lemma KindOfRequest(chunks: seq<Bytes>)
    requires NonEmptyChunks(chunks) && chunks != []
    ensures var req, first := Parse(chunks), Flatten(chunks)[0];
            && (req.Set? ==> first == 83) && (req.Get? ==> first == 71) && (req.Delete? ==> first == 68)
            && (req.List? <==> first == 76) && (req.Commit? <==> first == 67) && (req.Reload? <==> first == 82)
            && (req.Monitor? || req.UnsizedMonitor? ==> first == 77)
  {
    assert chunks[0][0] == Flatten(chunks)[0];
  }

  /** The frame has a header of the given length, and is as long as the header says. */
  predicate Announced(frame: Bytes, header: nat) {
    || (header == 3 && |frame| >= 3 && frame[0] == OP_SET && |frame| == 3 + frame[1] as int + frame[2] as int)
    || (header == 3 && |frame| >= 3 && frame[0] == OP_GET && |frame| == 3 + frame[1] as int)
    || (header == 2 && |frame| >= 2 && frame[0] in {OP_DELETE, OP_MONITOR} && |frame| == 2 + frame[1] as int)
  }

  /** Every encoder announces what it sends, and fits the message buffer. */
  lemma EncodersAnnounce(key: CString, value: Bytes, room: nat)
    requires |key| < NAME_MAX && |value| < VALUE_MAX
    ensures Announced(EncodeSet(key, value), 3) && |EncodeSet(key, value)| < MSG_MAX
    ensures Announced(EncodeGet(key, room), 3) && |EncodeGet(key, room)| < MSG_MAX
    ensures Announced(EncodeDelete(key), 2) && |EncodeDelete(key)| < MSG_MAX
    ensures Announced(EncodeMonitor(key), 2) && |EncodeMonitor(key)| < MSG_MAX
  {
  }

  /** A request that stops early is ignored, once its header has arrived in one piece. */
  lemma TruncatedFrame(frame: Bytes, n: nat, header: nat, chunks: seq<Bytes>)
    requires Announced(frame, header) && |frame| < MSG_MAX
    requires n < |frame| && NonEmptyChunks(chunks) && Flatten(chunks) == frame[..n]
    requires chunks != [] ==> |chunks[0]| >= header
    ensures Parse(chunks) == Ignored
  {
    if chunks != [] {
      FirstPiece(chunks);
      assert Header(chunks, 0) == frame[0] && Header(chunks, 1) == frame[1];
      assert header == 3 ==> Header(chunks, 2) == frame[2];
    }
  }

  /** Without the condition the claim fails: a set whose value length arrives late is decoded as a
      set of the empty value. */
  lemma SplitHeaderLosesValue()
    ensures var chunks: seq<Bytes> := [[OP_SET, 2], [1, 97, 0, 49]];
            && Flatten(chunks) == EncodeSet([97], [49])
            && Parse(chunks) == Set([97, 0], [])
  {
    var chunks: seq<Bytes> := [[OP_SET, 2], [1, 97, 0, 49]];
    assert chunks[1..] == [[1, 97, 0, 49]];
    assert chunks[1..][1..] == [];
    assert Flatten(chunks[1..]) == [1, 97, 0, 49] + Flatten([]);
    assert Flatten(chunks) == [OP_SET, 2, 1, 97, 0, 49];
    assert EncodeSet([97], [49]) == [OP_SET, 2, 1, 97, 0, 49];
  }
}
