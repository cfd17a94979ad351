/** Bytes, C strings, the limits of the property service and its error codes. */
module ByteStrings {

  type Byte = b: int | 0 <= b < 256
  type Bytes = seq<Byte>

  /** The contents of a C string, without its terminator. */
  type CString = s: Bytes | NulFree(s) witness []

  predicate NulFree(s: Bytes) {
    0 !in s
  }

  datatype Option<+T> = None | Some(value: T)

  const NAME_MAX := 127
  const VALUE_MAX := 255
  /** One opcode, two lengths, a name and a value. */
  const MSG_MAX := 3 + NAME_MAX + VALUE_MAX

  const EPERM := 1
  const E2BIG := 7
  const EINVAL := 22
  const ERANGE := 34
  const ENODATA := 61
  const NOT_FOUND := -6

  /** "persist." */
  const PERSIST_LABEL: CString := [112, 101, 114, 115, 105, 115, 116, 46]
  /** "ro." */
  const READ_ONLY_LABEL: CString := [114, 111, 46]

  function Min(a: int, b: int): int {
    if a <= b then a else b
  }

  /** `strlen`: the number of bytes before the first NUL. */
  function StrLen(b: Bytes): (n: nat)
    ensures n <= |b|
    ensures forall i :: 0 <= i < n ==> b[i] != 0
    ensures n < |b| ==> b[n] == 0
  {
    if b == [] || b[0] == 0 then 0 else 1 + StrLen(b[1..])
  }

  /** What a C function sees of a byte buffer. */
  function CStr(b: Bytes): (s: CString)
    ensures s <= b
  {
    b[..StrLen(b)]
  }

  /** A terminated C string followed by anything reads back as that string. */
  lemma CStrOfTerminated(s: CString, rest: Bytes)
    ensures CStr(s + [0] + rest) == s
    ensures StrLen(s + [0] + rest) == |s|
  {
    var b := s + [0] + rest;
    assert b[|s|] == 0;
    assert forall i :: 0 <= i < |s| ==> b[i] == s[i];
  }

  function Flatten(chunks: seq<Bytes>): (b: Bytes)
  {
    if chunks == [] then [] else chunks[0] + Flatten(chunks[1..])
  }

  lemma {:induction false} FlattenAppend(xs: seq<Bytes>, ys: seq<Bytes>)
    ensures Flatten(xs + ys) == Flatten(xs) + Flatten(ys)
  {
    if xs == [] {
      assert xs + ys == ys;
    } else {
      assert (xs + ys)[1..] == xs[1..] + ys;
      calc {
        Flatten(xs + ys);
        xs[0] + Flatten(xs[1..] + ys);
        { FlattenAppend(xs[1..], ys); }
        xs[0] + (Flatten(xs[1..]) + Flatten(ys));
        xs[0] + Flatten(xs[1..]) + Flatten(ys);
      }
    }
  }

  const WORD := 0x1_0000_0000

  /** The four bytes of an `int32_t`, least significant first. */
  function Word32(n: int): (b: Bytes)
    ensures |b| == 4
  {
    var w := n % WORD;
    [w % 256, w / 256 % 256, w / 65536 % 256, w / 16777216]
  }

  /** The `int32_t` held in four bytes. */
  function FromWord32(b: Bytes): (n: int)
    requires |b| == 4
    ensures -0x8000_0000 <= n < 0x8000_0000
  {
    var w: int := b[0] as int + 256 * (b[1] as int) + 65536 * (b[2] as int) + 16777216 * (b[3] as int);
    if w < 0x8000_0000 then w else w - WORD
  }

  lemma Word32RoundTrip(n: int)
    requires -0x8000_0000 <= n < 0x8000_0000
    ensures FromWord32(Word32(n)) == n
  {
    var w := n % WORD;
    assert w == w % 256 + 256 * (w / 256 % 256) + 65536 * (w / 65536 % 256) + 16777216 * (w / 16777216) by {
      assert w / 65536 == w / 256 / 256;
      assert w / 16777216 == w / 65536 / 256;
    }
  }
}
