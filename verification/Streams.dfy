/** Stream sockets: an ordered byte stream that arrives in arbitrary non-empty pieces. */
module Streams {
  import opened ByteStrings

  ghost predicate NonEmptyChunks(chunks: seq<Bytes>) {
    forall i :: 0 <= i < |chunks| ==> chunks[i] != []
  }

  /** What one `recv` of up to `n` bytes returns. */
  function Taken(chunks: seq<Bytes>, n: nat): Bytes {
    if chunks == [] then [] else chunks[0][..Min(n, |chunks[0]|)]
  }

  function Remaining(chunks: seq<Bytes>, n: nat): seq<Bytes> {
    if chunks == [] then []
    else if n < |chunks[0]| then [chunks[0][n..]] + chunks[1..]
    else chunks[1..]
  }

  lemma TakenThenRemaining(chunks: seq<Bytes>, n: nat)
    ensures Flatten(chunks) == Taken(chunks, n) + Flatten(Remaining(chunks, n))
  {
    if chunks != [] && n < |chunks[0]| {
      assert Remaining(chunks, n)[1..] == chunks[1..];
      assert chunks[0] == chunks[0][..n] + chunks[0][n..];
    }
  }

  /** The pieces that are left after the first `n` bytes have been received. */
  function DropBytes(chunks: seq<Bytes>, n: nat): seq<Bytes>
    decreases |chunks|
  {
    if n == 0 || chunks == [] then chunks
    else if n < |chunks[0]| then [chunks[0][n..]] + chunks[1..]
    else DropBytes(chunks[1..], n - |chunks[0]|)
  }

  lemma {:induction false} DropDrop(chunks: seq<Bytes>, a: nat, b: nat)
    requires NonEmptyChunks(chunks)
    ensures NonEmptyChunks(DropBytes(chunks, a))
    ensures DropBytes(DropBytes(chunks, a), b) == DropBytes(chunks, a + b)
    decreases |chunks|
  {
    if a != 0 && chunks != [] {
      if a < |chunks[0]| {
        assert ([chunks[0][a..]] + chunks[1..])[1..] == chunks[1..];
        if a + b < |chunks[0]| {
          assert chunks[0][a..][b..] == chunks[0][a + b..];
        }
      } else {
        DropDrop(chunks[1..], a - |chunks[0]|, b);
      }
    }
  }

  lemma {:induction false} FlattenDrop(chunks: seq<Bytes>, n: nat)
    requires n <= |Flatten(chunks)|
    ensures Flatten(DropBytes(chunks, n)) == Flatten(chunks)[n..]
    decreases |chunks|
  {
    if n != 0 && chunks != [] {
      if n < |chunks[0]| {
        assert ([chunks[0][n..]] + chunks[1..])[1..] == chunks[1..];
      } else {
        FlattenDrop(chunks[1..], n - |chunks[0]|);
      }
    }
  }

  /** Cut a message into pieces of the given sizes; what is left over arrives last. */
  function Split(message: Bytes, cuts: seq<nat>): (chunks: seq<Bytes>)
    ensures NonEmptyChunks(chunks)
    ensures Flatten(chunks) == message
    ensures message != [] ==> chunks != []
    ensures message != [] && cuts != [] ==> |chunks[0]| >= Min(cuts[0], |message|)
    ensures message != [] && cuts == [] ==> chunks[0] == message
    decreases |message|
  {
    if message == [] then []
    else if cuts == [] then
      assert [message][1..] == [];
      [message]
    else
      var n: nat := if cuts[0] == 0 then 1 else Min(cuts[0], |message|);
      var rest := Split(message[n..], cuts[1..]);
      assert ([message[..n]] + rest)[1..] == rest;
      [message[..n]] + rest
  }

  /** Bytes written right behind others. */
  lemma Extended(before: Bytes, after: Bytes, offset: nat, at: nat, filled: Bytes, got: Bytes)
    requires at == offset + |filled| && at + |got| <= |before| == |after| && before[offset..at] == filled
    requires forall i :: 0 <= i < at ==> after[i] == before[i]
    requires forall i :: at <= i < at + |got| ==> after[i] == got[i - at]
    ensures after[offset..at + |got|] == filled + got
  {
    var slice, more := after[offset..at + |got|], filled + got;
    forall i | 0 <= i < |more|
      ensures slice[i] == more[i]
    {
      assert slice[i] == after[offset + i];
      if i < |filled| {
        assert filled[i] == before[offset + i];
      }
    }
  }

  lemma RemainingIsDrop(chunks: seq<Bytes>, n: nat)
    requires NonEmptyChunks(chunks) && n > 0 && chunks != []
    ensures Remaining(chunks, n) == DropBytes(chunks, |Taken(chunks, n)|)
  {
  }

  /** One `recv` in the middle of a message: what is received and what is pending still make the
      message, and the pieces left are those after as many bytes. */
  lemma OneMoreRecv(origin: seq<Bytes>, filled: Bytes, chunks: seq<Bytes>, n: nat)
    requires NonEmptyChunks(origin) && n > 0 && chunks != [] && chunks == DropBytes(origin, |filled|)
    requires Flatten(origin) == filled + Flatten(chunks)
    ensures var more := filled + Taken(chunks, n);
            Flatten(origin) == more + Flatten(Remaining(chunks, n)) && Remaining(chunks, n) == DropBytes(origin, |more|)
  {
    TakenThenRemaining(chunks, n);
    Regroup(filled, Taken(chunks, n), Flatten(Remaining(chunks, n)));
    MorePieces(origin, |filled|, n);
  }

  lemma Regroup(a: Bytes, b: Bytes, c: Bytes)
    ensures a + (b + c) == a + b + c
  {
  }

  lemma MorePieces(origin: seq<Bytes>, a: nat, n: nat)
    requires NonEmptyChunks(origin) && n > 0 && DropBytes(origin, a) != []
    ensures var chunks := DropBytes(origin, a);
            Remaining(chunks, n) == DropBytes(origin, a + |Taken(chunks, n)|)
  {
    var chunks := DropBytes(origin, a);
    DropDrop(origin, a, |Taken(chunks, n)|);
    RemainingIsDrop(chunks, n);
  }

  /** The receiving end of one connection. */
  class Stream {
    var chunks: seq<Bytes>
    /** What `recv` returns once the pieces are used up: 0 when the peer closed, negative on error. */
    const ending: int

    ghost predicate Valid()
      reads this
    {
      ending <= 0 && NonEmptyChunks(chunks)
    }

    ghost function Pending(): Bytes
      reads this
    {
      Flatten(chunks)
    }

    constructor (chunks: seq<Bytes>, ending: int)
      requires ending <= 0 && NonEmptyChunks(chunks)
      ensures Valid() && this.chunks == chunks && this.ending == ending
    {
      this.chunks := chunks;
      this.ending := ending;
    }

    /** `recv(fd, buf + offset, n)`: up to `n` bytes of the next piece, or `ending`. */
    method Recv(buf: array<Byte>, offset: nat, n: nat) returns (ret: int)
      requires Valid() && offset + n <= buf.Length
      modifies this`chunks, buf
      ensures Valid()
      ensures n == 0 || old(chunks) == [] ==> ret == (if n == 0 then 0 else ending) && chunks == old(chunks)
      ensures n > 0 && old(chunks) != [] ==>
                && 0 < ret <= n
                && ret == |Taken(old(chunks), n)|
                && chunks == Remaining(old(chunks), n)
                && ret <= |old(Pending())| && Pending() == old(Pending())[ret..]
      ensures forall i :: offset <= i < offset + ret ==> buf[i] == old(Pending())[i - offset]
      ensures forall i :: 0 <= i < buf.Length && (i < offset || offset + ret <= i) ==> buf[i] == old(buf[i])
    {
      if n == 0 {
        return 0;
      }
      if chunks == [] {
        return ending;
      }
      TakenThenRemaining(chunks, n);
      var got := Taken(chunks, n);
      ret := |got|;
      forall i | 0 <= i < ret {
        buf[offset + i] := got[i];
      }
      chunks := Remaining(chunks, n);
    }

    /** `filled` has been received into `buf` from `offset` up to `at`, out of the pieces `origin`. */
    ghost predicate Progress(buf: array<Byte>, offset: nat, at: nat, filled: Bytes, origin: seq<Bytes>)
      reads this, buf
    {
      && at == offset + |filled|
      && Flatten(origin) == filled + Pending() && chunks == DropBytes(origin, |filled|)
      && (filled == [] || (at <= buf.Length && buf[offset..at] == filled))
    }

    /** One `recv` behind the bytes that are already there. */
    method RecvBehind(buf: array<Byte>, offset: nat, at: nat, n: nat, ghost filled: Bytes) returns (r: int)
      requires Valid() && n > 0 && at + n <= buf.Length
      requires at == offset + |filled| && buf[offset..at] == filled
      modifies this`chunks, buf
      ensures Valid()
      ensures r <= 0 ==> old(chunks) == [] && r == ending
      ensures r > 0 ==>
                && r <= n && old(chunks) != [] && r == |Taken(old(chunks), n)|
                && chunks == Remaining(old(chunks), n) && buf[offset..at + r] == filled + Taken(old(chunks), n)
      ensures r <= 0 ==> buf[..] == old(buf[..])
      ensures forall i :: 0 <= i < buf.Length && (i < at || at + n <= i) ==> buf[i] == old(buf[i])
    {
      ghost var before, got := buf[..], Taken(chunks, n);
      TakenThenRemaining(chunks, n);
      r := Recv(buf, at, n);
      if r > 0 {
        Extended(before, buf[..], offset, at, filled, got);
      }
    }

    /** One turn of the receive loop. */
    method RecvSome(buf: array<Byte>, offset: nat, at: nat, len: nat, ghost filled: Bytes, ghost origin: seq<Bytes>)
      returns (r: int, ghost more: Bytes)
      requires Valid() && at < len <= buf.Length
      requires NonEmptyChunks(origin) && Progress(buf, offset, at, filled, origin)
      modifies this`chunks, buf
      ensures Valid()
      ensures r <= 0 ==> old(Pending()) == [] && r == ending
      ensures r > 0 ==> at + r <= len && Progress(buf, offset, at + r, more, origin)
      ensures forall i :: 0 <= i < buf.Length && (i < at || len <= i) ==> buf[i] == old(buf[i])
    {
      ghost var before := chunks;
      more := filled;
      r := RecvBehind(buf, offset, at, len - at, filled);
      if r > 0 {
        more := filled + Taken(before, len - at);
        OneMoreRecv(origin, filled, before, len - at);
      }
    }

    /** `kvdb_recv` and `recv_safe`: fill `buf[offset..len]` whatever the pieces, or fail when the
        stream ends first. Nothing is received when the buffer is already full enough. */
    method ReceiveAll(buf: array<Byte>, offset: nat, len: nat) returns (ret: int)
      requires Valid() && len <= buf.Length
      modifies this`chunks, buf
      ensures Valid()
      ensures len <= offset ==> ret == len && chunks == old(chunks)
      ensures offset < len <= offset + |old(Pending())| ==>
                && ret == len
                && buf[offset..len] == old(Pending())[..len - offset]
                && Pending() == old(Pending())[len - offset..]
                && chunks == DropBytes(old(chunks), len - offset)
      ensures offset < len && len > offset + |old(Pending())| ==>
                ret == if ending < 0 then ending else -ENODATA
      ensures forall i :: 0 <= i < buf.Length && (i < offset || len <= i) ==> buf[i] == old(buf[i])
    {
      var at := offset;
      ghost var origin := chunks;
      ghost var filled: Bytes := [];
      while at < len
        invariant Valid() && Progress(buf, offset, at, filled, origin)
        invariant at <= len || filled == []
        invariant forall i :: 0 <= i < buf.Length && (i < offset || len <= i) ==> buf[i] == old(buf[i])
        decreases len - at
      {
        var r;
        r, filled := RecvSome(buf, offset, at, len, filled, origin);
        if r < 0 {
          return r;
        }
        if r == 0 {
          return -ENODATA;
        }
        at := at + r;
      }
      ret := len;
    }
  }
}
