/** Typed values on top of the string store (kvdb/common.c): hex buffers and integers. */
module Codecs {
  import opened ByteStrings
  import opened Store
  import opened Api
  import opened Refinement

  // ---------------------------------------------------------------------------------------------
  // Hex buffers

  /** `size_t` is 32 bits wide on the targets modelled. */
  const SIZE_MOD := 0x1_0000_0000
  const HALF_MOD := 0x8000_0000

  /** Half of a doubled size, after the doubling has wrapped around: the bytes a call works on. */
  function Kept(size: nat): nat {
    size % HALF_MOD
  }

  lemma DoubledSize(size: nat)
    requires size < SIZE_MOD
    ensures 2 * size % SIZE_MOD == 2 * Kept(size) && Kept(size) <= size
    ensures Kept(size) == size <==> size < HALF_MOD
  {
    if size >= HALF_MOD {
      assert 2 * size == SIZE_MOD + 2 * (size - HALF_MOD);
    }
  }

  function NibbleToAscii(n: int): (c: Byte)
    requires 0 <= n < 16
    ensures c != 0
  {
    if n < 10 then 48 + n else 97 + n - 10
  }

  /** The value of a hexadecimal digit, or -ERANGE. */
  function AsciiToNibble(c: Byte): (n: int)
    ensures n == -ERANGE || 0 <= n < 16
  {
    if 48 <= c <= 57 then c - 48
    else if 97 <= c <= 102 then c - 97 + 10
    else if 65 <= c <= 70 then c - 65 + 10
    else -ERANGE
  }

  function HexEncode(data: Bytes): (s: CString)
    ensures |s| == 2 * |data|
  {
    if data == [] then []
    else [NibbleToAscii(data[0] / 16), NibbleToAscii(data[0] % 16)] + HexEncode(data[1..])
  }

  /** The text of a prefix and one more byte. */
  lemma {:induction false} HexEncodeSnoc(data: Bytes, b: Byte)
    ensures HexEncode(data + [b]) == HexEncode(data) + [NibbleToAscii(b / 16), NibbleToAscii(b % 16)]
    decreases |data|
  {
    if data == [] {
      assert data + [b] == [b];
      assert [b][1..] == [];
    } else {
      assert (data + [b])[1..] == data[1..] + [b];
      HexEncodeSnoc(data[1..], b);
    }
  }

  /** The text `property_set_buffer` stores for a buffer of `size` bytes, or None when it refuses.
      The doubled size is taken modulo the width of `size_t`. */
  function BufferText(data: Bytes): Option<CString> {
    var bufSize := 2 * |data| % SIZE_MOD;
    if bufSize >= VALUE_MAX then None else Some(HexEncode(data[..bufSize / 2]))
  }

  /** The encoding loop of `property_set_buffer`, in a buffer of VALUE_MAX bytes. */
  method EncodeBuffer(data: Bytes) returns (text: Option<CString>)
    requires |data| < SIZE_MOD
    ensures text == BufferText(data)
  {
    var bufSize := 2 * |data| % SIZE_MOD;
    if bufSize >= VALUE_MAX {
      return None;
    }
    assert bufSize % 2 == 0 && bufSize <= 2 * |data|;
    var buf := new Byte[VALUE_MAX](i => 0);
    var i, tmp := 0, 0;
    while i < bufSize
      invariant 0 <= i <= bufSize && i == 2 * tmp
      invariant buf[..i] == HexEncode(data[..tmp])
    {
      PutByte(buf, i, data[tmp]);
      assert data[..tmp + 1] == data[..tmp] + [data[tmp]];
      HexEncodeSnoc(data[..tmp], data[tmp]);
      i, tmp := i + 2, tmp + 1;
    }
    text := Some(buf[..i]);
  }

  method PutByte(buf: array<Byte>, i: nat, b: Byte)
    requires i + 2 <= buf.Length
    modifies buf
    ensures buf[..i + 2] == old(buf[..i]) + [NibbleToAscii(b / 16), NibbleToAscii(b % 16)]
  {
    buf[i] := NibbleToAscii(b / 16);
    buf[i + 1] := NibbleToAscii(b % 16);
  }

  datatype Decoded = Data(data: Bytes) | Error(code: int)

  /** What `property_get_buffer` makes of a stored text, with room for `size` bytes. */
  function HexDecode(s: CString, size: nat): Decoded
    decreases |s|
  {
    if s == [] then Data([])
    else if size == 0 then Error(-E2BIG)
    else if AsciiToNibble(s[0]) < 0 || |s| == 1 || AsciiToNibble(s[1]) < 0 then Error(-ERANGE)
    else
      match HexDecode(s[2..], size - 1)
      case Data(rest) => Data([16 * AsciiToNibble(s[0]) + AsciiToNibble(s[1])] + rest)
      case Error(code) => Error(code)
  }

  /** Bytes already decoded, then the rest. */
  function Join(done: Bytes, rest: Decoded): Decoded {
    match rest
    case Data(data) => Data(done + data)
    case Error(code) => Error(code)
  }

  lemma DecodeTwo(s: CString, size: nat, done: Bytes)
    requires |s| >= 2 && size > 0 && AsciiToNibble(s[0]) >= 0 && AsciiToNibble(s[1]) >= 0
    ensures Join(done, HexDecode(s, size))
         == Join(done + [16 * AsciiToNibble(s[0]) + AsciiToNibble(s[1])], HexDecode(s[2..], size - 1))
  {
    var b: Byte := 16 * AsciiToNibble(s[0]) + AsciiToNibble(s[1]);
    match HexDecode(s[2..], size - 1)
    case Data(rest) => assert done + ([b] + rest) == done + [b] + rest;
    case Error(_) =>
  }

  method PutDecoded(value: array<Byte>, at: nat, b: Byte)
    requires at < value.Length
    modifies value
    ensures value[..at + 1] == old(value[..at]) + [b]
    ensures forall j :: at < j < value.Length ==> value[j] == old(value[j])
  {
    value[at] := b;
  }

  /** Two digits at `i`, of which the second may be the terminator: their byte, or the first error. */
  method ReadDigits(buf: Bytes, i: nat, ghost rest: CString, ghost size: nat, ghost done: Bytes) returns (b: int)
    requires i < |buf| && buf[i..] == rest + [0] && rest != [] && size > 0
    ensures b < 0 ==> HexDecode(rest, size) == Error(b)
    ensures b >= 0 ==>
              && b < 256 && |rest| >= 2
              && Join(done, HexDecode(rest, size)) == Join(done + [b], HexDecode(rest[2..], size - 1))
  {
    assert buf[i] == rest[0];
    var hi := AsciiToNibble(buf[i]);
    if hi < 0 {
      return hi;
    }
    assert buf[i + 1] == (rest + [0])[1];
    var lo := AsciiToNibble(buf[i + 1]);
    if lo < 0 {
      return lo;
    }
    DecodeTwo(rest, size, done);
    b := 16 * hi + lo;
  }

  /** The end of `property_get_buffer`; the room is doubled in a `size_t` too. */
  method DecodeBuffer(text: CString, value: array<Byte>, size: nat) returns (ret: int)
    requires size <= value.Length && size < SIZE_MOD
    modifies value
    ensures match HexDecode(text, Kept(size))
            case Data(data) => ret == |data| && ret <= size && value[..ret] == data
            case Error(code) => ret == code && ret < 0
    ensures forall i :: size <= i < value.Length ==> value[i] == old(value[i])
  {
    DoubledSize(size);
    ret := DecodeText(text, value, 2 * size % SIZE_MOD, Kept(size));
  }

  /** The decoding loop; `buf` holds the text and its terminator. */
  method DecodeText(text: CString, value: array<Byte>, bufSize: nat, ghost room: nat) returns (ret: int)
    requires bufSize == 2 * room && room <= value.Length
    modifies value
    ensures match HexDecode(text, room)
            case Data(data) => ret == |data| && ret <= room && value[..ret] == data
            case Error(code) => ret == code && ret < 0
    ensures forall i :: room <= i < value.Length ==> value[i] == old(value[i])
  {
    var buf := text + [0];
    var i, tmp := 0, 0;
    while buf[i] != 0
      invariant 0 <= i <= |text| && i == 2 * tmp && tmp <= room
      invariant forall j :: room <= j < value.Length ==> value[j] == old(value[j])
      invariant HexDecode(text, room) == Join(value[..tmp], HexDecode(text[i..], room - tmp))
      decreases |text| - i
    {
      ghost var rest := text[i..];
      assert buf[i..] == rest + [0];
      if i >= bufSize {
        return -E2BIG;
      }
      var b := ReadDigits(buf, i, rest, room - tmp, value[..tmp]);
      i := i + 2;
      if b < 0 {
        return b;
      }
      assert rest[2..] == text[i..];
      PutDecoded(value, tmp, b);
      tmp := tmp + 1;
    }
    assert text[i..] == [] && i == |text|;
    ret := i / 2;
  }

  /** Hexadecimal digits, in upper and lower case. */
  predicate IsHexDigit(c: Byte) {
    48 <= c <= 57 || 65 <= c <= 70 || 97 <= c <= 102
  }

  predicate IsHex(s: CString) {
    forall c :: c in s ==> IsHexDigit(c)
  }

  lemma HexParts(s: CString)
    requires |s| >= 2
    ensures IsHex(s) <==> IsHexDigit(s[0]) && IsHexDigit(s[1]) && IsHex(s[2..])
  {
    assert s == [s[0], s[1]] + s[2..];
    assert s[0] in s && s[1] in s;
    assert forall c :: c in s[2..] ==> c in s;
  }

  /** The character stands for the number as a digit. */
  predicate DigitOf(c: Byte, n: int) {
    if 0 <= n < 10 then c == 48 + n else 10 <= n < 36 && c in {65 + n - 10, 97 + n - 10}
  }

  function Lower(c: Byte): Byte {
    if 65 <= c <= 90 then c + 32 else c
  }

  function LowerAll(s: Bytes): Bytes {
    seq(|s|, i requires 0 <= i < |s| => Lower(s[i]))
  }

  /** The decoder accepts exactly the even-length hexadecimal texts that fit. */
  lemma {:induction false} DecodeAccepts(s: CString, size: nat)
    ensures HexDecode(s, size).Data? <==> |s| % 2 == 0 && IsHex(s) && |s| / 2 <= size
    decreases |s|
  {
    if s != [] && size > 0 && |s| > 1 {
      DecodeAccepts(s[2..], size - 1);
      HexParts(s);
    }
  }

  /** A text is refused because it is too long exactly when it goes on after `size` good pairs, and for
      anything else with ERANGE. */
  lemma {:induction false} DecodeError(s: CString, size: nat)
    ensures HexDecode(s, size) == Error(-7) <==> |s| > 2 * size && IsHex(s[..2 * size])
    ensures HexDecode(s, size).Error? ==> HexDecode(s, size).code in {-7, -34}
    decreases |s|
  {
    if s != [] && size > 0 && |s| > 1 {
      DecodeError(s[2..], size - 1);
      if |s| > 2 * size {
        HexParts(s[..2 * size]);
        assert s[..2 * size][2..] == s[2..][..2 * (size - 1)];
      }
    }
  }

  /** Each two digits of an accepted text stand for the two halves of a byte. */
  lemma {:induction false} DecodedBytes(s: CString, size: nat, i: nat)
    requires HexDecode(s, size).Data? && 2 * i < |s|
    ensures var data := HexDecode(s, size).data;
            2 * |data| == |s| && DigitOf(s[2 * i], data[i] / 16) && DigitOf(s[2 * i + 1], data[i] % 16)
    decreases |s|
  {
    if i > 0 {
      DecodedBytes(s[2..], size - 1, i - 1);
    } else if |s| > 2 {
      DecodedBytes(s[2..], size - 1, 0);
    }
  }

  /** And each byte is stored as two such digits, high half first, in lower case. */
  lemma {:induction false} EncodedBytes(data: Bytes, i: nat)
    requires i < |data|
    ensures var s := HexEncode(data);
            DigitOf(s[2 * i], data[i] / 16) && DigitOf(s[2 * i + 1], data[i] % 16) && LowerAll(s) == s
    decreases |data|
  {
    EncodedLower(data);
    if i > 0 {
      EncodedBytes(data[1..], i - 1);
    }
  }

  lemma {:induction false} EncodedLower(data: Bytes)
    ensures LowerAll(HexEncode(data)) == HexEncode(data)
  {
    if data != [] {
      EncodedLower(data[1..]);
      LowerPair(HexEncode(data));
    }
  }

  lemma NibbleOfDigit(n: int)
    requires 0 <= n < 16
    ensures AsciiToNibble(NibbleToAscii(n)) == n
  {
  }

  lemma DigitOfNibble(c: Byte)
    requires AsciiToNibble(c) >= 0
    ensures NibbleToAscii(AsciiToNibble(c)) == Lower(c)
  {
  }

  lemma LowerPair(s: Bytes)
    requires |s| >= 2
    ensures LowerAll(s) == [Lower(s[0]), Lower(s[1])] + LowerAll(s[2..])
  {
    var t := [Lower(s[0]), Lower(s[1])] + LowerAll(s[2..]);
    assert forall i :: 0 <= i < |s| ==> LowerAll(s)[i] == t[i];
  }

  /** Encoding what was decoded gives the text back in lower case. */
  lemma {:induction false} ReencodeIsLower(s: CString, size: nat)
    requires HexDecode(s, size).Data?
    ensures HexEncode(HexDecode(s, size).data) == LowerAll(s)
    decreases |s|
  {
    if s != [] {
      ReencodeIsLower(s[2..], size - 1);
      var hi, lo := AsciiToNibble(s[0]), AsciiToNibble(s[1]);
      var b: Byte := 16 * hi + lo;
      assert b / 16 == hi && b % 16 == lo;
      DigitOfNibble(s[0]);
      DigitOfNibble(s[1]);
      assert ([b] + HexDecode(s[2..], size - 1).data)[1..] == HexDecode(s[2..], size - 1).data;
      LowerPair(s);
    }
  }

  lemma DecodePair(b: Byte, t: CString, size: nat)
    requires size > 0
    ensures HexDecode([NibbleToAscii(b / 16), NibbleToAscii(b % 16)] + t, size)
         == match HexDecode(t, size - 1)
            case Data(rest) => Data([b] + rest)
            case Error(code) => Error(code)
  {
    NibbleOfDigit(b / 16);
    NibbleOfDigit(b % 16);
    var s: CString := [NibbleToAscii(b / 16), NibbleToAscii(b % 16)] + t;
    assert s[2..] == t;
    assert 16 * (b / 16) + b % 16 == b;
  }

  /** Decoding what was encoded gives the buffer back when there is room, and E2BIG when not. */
  lemma {:induction false} DecodeUndoesEncode(data: Bytes, size: nat)
    ensures HexDecode(HexEncode(data), size) == if |data| <= size then Data(data) else Error(-E2BIG)
    decreases |data|
  {
    if data != [] && size > 0 {
      var b, rest := data[0], data[1..];
      DecodePair(b, HexEncode(rest), size);
      DecodeUndoesEncode(rest, size - 1);
    }
  }

  function SetBuffer(temporary: bool, env: Env, view: map<Bytes, Bytes>, key: CString, data: Bytes): MapResult {
    var text := BufferText(data);
    if text.None? then MapResult(env, view, Answer(-E2BIG, None))
    else MapOp(temporary, env, view, SetOp(key, text.value))
  }

  function GetBuffer(temporary: bool, env: Env, view: map<Bytes, Bytes>, key: CString, size: nat): Decoded {
    var a := MapOp(temporary, env, view, GetOp(key, None)).answer;
    if a.code < 0 || a.text.None? then Error(a.code) else HexDecode(a.text.value, Kept(size))
  }

  /** The length test refuses a buffer exactly by its size modulo half the range of `size_t`; what
      passes is stored up to that size, which is the whole buffer exactly when the doubled size does
      not wrap. */
  lemma BufferTextExactly(data: Bytes)
    requires |data| < 0x1_0000_0000
    ensures Kept(|data|) == |data| % 0x8000_0000 <= |data|
    ensures BufferText(data).None? <==> Kept(|data|) >= 128
    ensures BufferText(data).Some? ==> BufferText(data) == Some(HexEncode(data[..Kept(|data|)]))
    ensures data[..Kept(|data|)] == data <==> |data| < 0x8000_0000
  {
    DoubledSize(|data|);
  }

  /** What was stored is read back, for all sizes: the bytes kept, given room for them, and E2BIG with
      too little. A buffer whose doubled size does not wrap is thus read back identically. */
  lemma BufferRoundTrip(temporary: bool, env: Env, view: map<Bytes, Bytes>, key: CString, data: Bytes, size: nat)
    requires |data| < SIZE_MOD && size < SIZE_MOD && !LongName(key)
    requires SetBuffer(temporary, env, view, key, data).answer.code == 0
    ensures Kept(|data|) <= |data|
    ensures var m := SetBuffer(temporary, env, view, key, data);
            GetBuffer(temporary, m.env, m.view, key, size)
            == if Kept(|data|) <= Kept(size) then Data(data[..Kept(|data|)]) else Error(-E2BIG)
    ensures |data| < HALF_MOD ==> data[..Kept(|data|)] == data
  {
    BufferTextExactly(data);
    var kept := data[..Kept(|data|)];
    var text := HexEncode(kept);
    SetIsVisible(temporary, env, view, key, text, key);
    var m := MapOp(temporary, env, view, SetOp(key, text));
    GetReadsVisible(temporary, m.env, m.view, key, None);
    DecodeUndoesEncode(kept, Kept(size));
  }

  /** On the database path, for every size: at most 126 bytes kept are refused only for their key, and
      more always. */
  lemma BufferLimit(temporary: bool, env: Env, view: map<Bytes, Bytes>, key: CString, data: Bytes)
    requires |data| < SIZE_MOD && key !in env
    ensures SetBuffer(temporary, env, view, key, data).answer.code
         == if Kept(|data|) <= 126 then SetCode(temporary, view, Stored(key), [0], false) else -E2BIG
    ensures SetCode(temporary, view, Stored(key), [0], false) == 0 ==>
              (SetBuffer(temporary, env, view, key, data).answer.code == 0 <==> Kept(|data|) <= 126)
  {
    BufferTextExactly(data);
    assert |HexEncode(data[..Kept(|data|)]) + [0]| == 2 * Kept(|data|) + 1;
  }

  // ---------------------------------------------------------------------------------------------
  // Integers

  const INT32_MIN := -0x8000_0000
  const INT32_MAX := 0x7fff_ffff
  const INT64_MIN := -0x8000_0000_0000_0000
  const INT64_MAX := 0x7fff_ffff_ffff_ffff

  function Digits(n: nat): (s: CString)
    ensures s != [] && forall i :: 0 <= i < |s| ==> 48 <= s[i] <= 57
    ensures n > 0 ==> s[0] != 48
    ensures n == 0 ==> s == [48]
  {
    if n < 10 then [48 + n] else Digits(n / 10) + [48 + n % 10]
  }

  /** `snprintf` with PRId32 or PRId64. */
  function PrintInt(n: int): CString {
    if n < 0 then [45] + Digits(-n) else Digits(n)
  }

  predicate IsSpace(c: Byte) {
    c == 32 || 9 <= c <= 13
  }

  function SpaceSpan(s: Bytes): (n: nat)
    ensures n <= |s|
  {
    if s == [] || !IsSpace(s[0]) then 0 else 1 + SpaceSpan(s[1..])
  }

  /** The value of a digit or letter in bases up to 36, or 36 for anything else. */
  function DigitValue(c: Byte): nat {
    if 48 <= c <= 57 then c - 48
    else if 97 <= c <= 122 then c - 97 + 10
    else if 65 <= c <= 90 then c - 65 + 10
    else 36
  }

  function DigitSpan(s: Bytes, base: nat): (n: nat)
    ensures n <= |s|
  {
    if s == [] || DigitValue(s[0]) >= base then 0 else 1 + DigitSpan(s[1..], base)
  }

  function NumberOf(s: Bytes, base: nat): nat {
    if s == [] then 0 else NumberOf(s[..|s| - 1], base) * base + DigitValue(s[|s| - 1])
  }

  datatype Magnitude = Magnitude(value: nat, used: nat)

  /** The digits after space and sign: hexadecimal after "0x" before a digit, octal after "0",
      decimal otherwise. */
  function ParseMagnitude(t: CString): Magnitude {
    var hex := |t| >= 3 && t[0] == 48 && (t[1] == 120 || t[1] == 88) && DigitValue(t[2]) < 16;
    var base := if hex then 16 else if t != [] && t[0] == 48 then 8 else 10;
    var body := if hex then t[2..] else t;
    var n := DigitSpan(body, base);
    Magnitude(NumberOf(body[..n], base), if n == 0 then 0 else if hex then n + 2 else n)
  }

  datatype Parsed = Parsed(value: int, used: nat, overflow: bool)

  /** `strtol` or `strtoll` with base 0 (section 7.22.1.4 of ISO/IEC 9899:2011), for a type whose
      range is `lo` to `hi`: optional space and sign, then the digits. */
  function ParseInt(s: CString, lo: int, hi: int): Parsed {
    var start := SpaceSpan(s);
    ParseSigned(s[start..], start, lo, hi)
  }

  /** What is left behind `start` bytes of space. */
  function ParseSigned(u: CString, start: nat, lo: int, hi: int): Parsed {
    var signed := u != [] && (u[0] == 45 || u[0] == 43);
    var negative := signed && u[0] == 45;
    if signed then Ranged(start + 1, negative, ParseMagnitude(u[1..]), lo, hi)
    else Ranged(start, false, ParseMagnitude(u), lo, hi)
  }

  /** A number that starts at `at`, brought into the range. */
  function Ranged(at: nat, negative: bool, m: Magnitude, lo: int, hi: int): Parsed {
    if m.used == 0 then Parsed(0, 0, false)
    else
      var value := if negative then -(m.value as int) else m.value;
      if value < lo then Parsed(lo, at + m.used, true)
      else if value > hi then Parsed(hi, at + m.used, true)
      else Parsed(value, at + m.used, false)
  }

  /** The conversion of a `long` to `int32_t`. */
  function Wrap32(n: int): int {
    var w := n % WORD;
    if w > INT32_MAX then w - WORD else w
  }

  /** `property_get_int32` on a stored text, where `long` ranges over `lo` to `hi`. */
  function TextToInt32(s: CString, fallback: int, lo: int, hi: int): int {
    var p := ParseInt(s, lo, hi);
    if p.overflow || p.used != |s| || p.used == 0 then fallback else Wrap32(p.value)
  }

  /** `property_get_int64` on a stored text. */
  function TextToInt64(s: CString, fallback: int): int {
    var p := ParseInt(s, INT64_MIN, INT64_MAX);
    if p.overflow || p.used != |s| || p.used == 0 then fallback else p.value
  }

  lemma {:induction false} DecimalRun(s: Bytes)
    requires forall i :: 0 <= i < |s| ==> 48 <= s[i] <= 57
    ensures DigitSpan(s, 10) == |s|
    decreases |s|
  {
    if s != [] {
      DecimalRun(s[1..]);
    }
  }

  lemma {:induction false} NumberOfDigits(n: nat)
    ensures NumberOf(Digits(n), 10) == n
  {
    var s := Digits(n);
    assert s[..|s| - 1] == if n < 10 then [] else Digits(n / 10);
    if n >= 10 {
      NumberOfDigits(n / 10);
    }
  }

  /** Printed digits are read in full; zero takes the octal reading of "0" and every other number the
      decimal one. */
  lemma MagnitudeOfDigits(m: nat)
    ensures ParseMagnitude(Digits(m)) == Magnitude(m, |Digits(m)|)
  {
    var t := Digits(m);
    assert t[..|t|] == t;
    if m == 0 {
      assert DigitSpan(t[1..], 8) == 0 && DigitSpan(t, 8) == 1;
      assert t[..0] == [] && NumberOf([], 8) == 0;
      assert NumberOf(t, 8) == 0;
    } else {
      DecimalRun(t);
      NumberOfDigits(m);
    }
  }

  /** Reading back a printed number gives that number and consumes the whole text. */
  lemma ParseUndoesPrint(n: int, lo: int, hi: int)
    requires lo <= n <= hi
    ensures ParseInt(PrintInt(n), lo, hi) == Parsed(n, |PrintInt(n)|, false)
  {
    var m := if n < 0 then -n else n;
    var s, t := PrintInt(n), Digits(m);
    MagnitudeOfDigits(m);
    assert SpaceSpan(s) == 0;
    if n < 0 {
      assert s[1..] == t;
    } else {
      assert s[0..] == t;
    }
  }

  // ---------------------------------------------------------------------------------------------
  // The other readings of base 0

  function Digit(n: int, upper: bool): (c: Byte)
    requires 0 <= n < 16
    ensures DigitOf(c, n) && c != 0
  {
    if n < 10 then 48 + n else if upper then 55 + n else 87 + n
  }

  /** A number in base 8 or 16. */
  function DigitsIn(n: nat, base: nat, upper: bool): (s: CString)
    requires base == 8 || base == 16
    ensures s != []
    ensures forall i :: 0 <= i < |s| ==> DigitValue(s[i]) < base
  {
    if n < base then [Digit(n, upper)] else DigitsIn(n / base, base, upper) + [Digit(n % base, upper)]
  }

  lemma {:induction false} FullRun(s: Bytes, base: nat)
    requires forall i :: 0 <= i < |s| ==> DigitValue(s[i]) < base
    ensures DigitSpan(s, base) == |s|
    decreases |s|
  {
    if s != [] {
      FullRun(s[1..], base);
    }
  }

  lemma {:induction false} NumberOfDigitsIn(n: nat, base: nat, upper: bool)
    requires base == 8 || base == 16
    ensures NumberOf(DigitsIn(n, base, upper), base) == n
  {
    var s := DigitsIn(n, base, upper);
    assert s[..|s| - 1] == if n < base then [] else DigitsIn(n / base, base, upper);
    if n >= base {
      NumberOfDigitsIn(n / base, base, upper);
    }
  }

  predicate IsBlankText(space: CString) {
    forall c :: c in space ==> c in {9, 10, 11, 12, 13, 32}
  }

  lemma {:induction false} SpaceSkipped(space: CString, rest: CString)
    requires IsBlankText(space) && rest != [] && !IsSpace(rest[0])
    ensures SpaceSpan(space + rest) == |space|
    decreases |space|
  {
    if space == [] {
      assert space + rest == rest;
    } else {
      assert space[0] in space;
      assert (space + rest)[1..] == space[1..] + rest;
      assert forall c :: c in space[1..] ==> c in space;
      SpaceSkipped(space[1..], rest);
    }
  }

  lemma ParseBehindSpace(space: CString, u: CString, lo: int, hi: int)
    requires IsBlankText(space) && u != [] && !IsSpace(u[0])
    ensures ParseInt(space + u, lo, hi) == ParseSigned(u, |space|, lo, hi)
  {
    SpaceSkipped(space, u);
    assert (space + u)[|space|..] == u;
  }

  lemma ParseSign(sign: CString, t: CString, start: nat, lo: int, hi: int)
    requires sign in {[], [43], [45]} && t != [] && 48 <= t[0] <= 57
    ensures ParseSigned(sign + t, start, lo, hi) == Ranged(start + |sign|, sign == [45], ParseMagnitude(t), lo, hi)
  {
    if sign == [] {
      assert sign + t == t;
    } else {
      assert (sign + t)[1..] == t;
    }
  }

  /** Space, a sign and a number. */
  lemma ParseParts(space: CString, sign: CString, t: CString, lo: int, hi: int)
    requires IsBlankText(space) && sign in {[], [43], [45]} && t != [] && 48 <= t[0] <= 57
    ensures ParseInt(space + sign + t, lo, hi)
         == Ranged(|space| + |sign|, sign == [45], ParseMagnitude(t), lo, hi)
  {
    assert space + sign + t == space + (sign + t);
    assert (sign + t)[0] == if sign == [] then t[0] else sign[0];
    ParseBehindSpace(space, sign + t, lo, hi);
    ParseSign(sign, t, |space|, lo, hi);
  }

  lemma MagnitudeOfHex(n: nat, x: Byte, upper: bool)
    requires x in {88, 120}
    ensures var digits := DigitsIn(n, 16, upper);
            ParseMagnitude([48, x] + digits) == Magnitude(n, 2 + |digits|)
  {
    var digits := DigitsIn(n, 16, upper);
    var t: CString := [48, x] + digits;
    FullRun(digits, 16);
    NumberOfDigitsIn(n, 16, upper);
    assert t[2] == digits[0] && t[2..] == digits && digits[..|digits|] == digits;
  }

  lemma OctalText(t: CString)
    requires |t| >= 2 && t[0] == 48 && forall i :: 0 <= i < |t| ==> DigitValue(t[i]) < 8
    ensures ParseMagnitude(t) == Magnitude(NumberOf(t, 8), |t|)
  {
    FullRun(t, 8);
    assert DigitValue(t[1]) < 8 && t[..|t|] == t;
  }

  lemma MagnitudeOfOctal(n: nat)
    ensures var digits := DigitsIn(n, 8, false);
            ParseMagnitude([48] + digits) == Magnitude(n, 1 + |digits|)
  {
    var digits := DigitsIn(n, 8, false);
    NumberOfDigitsIn(n, 8, false);
    LeadingZero(digits, 8);
    OctalText([48] + digits);
  }

  /** A text that is one unsigned number from its first byte to its last. */
  lemma ParseWhole(t: CString, n: nat, lo: int, hi: int)
    requires t != [] && 48 <= t[0] <= 57 && ParseMagnitude(t) == Magnitude(n, |t|) && lo <= n <= hi
    ensures ParseInt(t, lo, hi) == Parsed(n, |t|, false)
  {
    ParseParts([], [], t, lo, hi);
    assert [] + [] + t == t;
  }

  /** Base 0 reads "0x" or "0X" and hexadecimal digits of either case. */
  lemma HexRead(n: nat, x: Byte, upper: bool, t: CString, lo: int, hi: int)
    requires x in {88, 120} && t == [48, x] + DigitsIn(n, 16, upper) && lo <= n <= hi
    ensures ParseInt(t, lo, hi) == Parsed(n, |t|, false)
  {
    MagnitudeOfHex(n, x, upper);
    ParseWhole(t, n, lo, hi);
  }

  /** And "0" and octal digits. */
  lemma OctalRead(n: nat, t: CString, lo: int, hi: int)
    requires t == [48] + DigitsIn(n, 8, false) && lo <= n <= hi
    ensures ParseInt(t, lo, hi) == Parsed(n, |t|, false)
  {
    MagnitudeOfOctal(n);
    ParseWhole(t, n, lo, hi);
  }

  lemma {:induction false} LeadingZero(s: Bytes, base: nat)
    ensures NumberOf([48] + s, base) == NumberOf(s, base)
    decreases |s|
  {
    var t := [48] + s;
    if s == [] {
      assert t[..0] == [] && NumberOf([], base) == 0;
    } else {
      assert t[..|t| - 1] == [48] + s[..|s| - 1];
      LeadingZero(s[..|s| - 1], base);
    }
  }

  /** Space before a number is skipped, and a '+' is allowed. */
  lemma SpacedRead(space: CString, m: nat, lo: int, hi: int)
    requires IsBlankText(space)
    ensures lo <= m <= hi ==>
              && ParseInt(space + Digits(m), lo, hi) == Parsed(m, |space| + |Digits(m)|, false)
              && ParseInt(space + [43] + Digits(m), lo, hi) == Parsed(m, |space| + 1 + |Digits(m)|, false)
    ensures lo <= -(m as int) <= hi ==>
              ParseInt(space + [45] + Digits(m), lo, hi) == Parsed(-(m as int), |space| + 1 + |Digits(m)|, false)
  {
    MagnitudeOfDigits(m);
    ParseParts(space, [], Digits(m), lo, hi);
    ParseParts(space, [43], Digits(m), lo, hi);
    ParseParts(space, [45], Digits(m), lo, hi);
    assert space + [] == space;
  }

  lemma {:induction false} RunStops(s: Bytes, rest: Bytes, base: nat)
    requires rest != [] && DigitValue(rest[0]) >= base && forall i :: 0 <= i < |s| ==> DigitValue(s[i]) < base
    ensures DigitSpan(s + rest, base) == |s|
    decreases |s|
  {
    if s == [] {
      assert s + rest == rest;
    } else {
      assert (s + rest)[1..] == s[1..] + rest;
      RunStops(s[1..], rest, base);
    }
  }

  lemma MagnitudeStops(m: nat, rest: CString)
    requires rest != [] && !(48 <= rest[0] <= 57) && !(65 <= rest[0] <= 90) && !(97 <= rest[0] <= 122)
    ensures ParseMagnitude(Digits(m) + rest).used == |Digits(m)|
  {
    var t: CString := Digits(m) + rest;
    RunStops(Digits(m), rest, 10);
    if m == 0 {
      assert Digits(0) == [48] && t[1] == rest[0];
      RunStops(Digits(m), rest, 8);
    } else {
      assert t[0] == Digits(m)[0] != 48;
    }
  }

  lemma ParsePartial(sign: CString, t: CString, lo: int, hi: int)
    requires sign in {[], [45]} && t != [] && 48 <= t[0] <= 57 && ParseMagnitude(t).used < |t|
    ensures var p := ParseInt(sign + t, lo, hi); p.used == 0 || p.used != |sign + t|
  {
    ParseParts([], sign, t, lo, hi);
    assert [] + sign + t == sign + t;
  }

  /** A text that is not a number to its last byte makes both getters return the default. */
  lemma NotWhole(s: CString, sign: CString, t: CString, fallback: int, lo: int, hi: int)
    requires s == sign + t && sign in {[], [45]} && t != [] && 48 <= t[0] <= 57 && ParseMagnitude(t).used < |t|
    ensures TextToInt32(s, fallback, lo, hi) == fallback
    ensures TextToInt64(s, fallback) == fallback
  {
    ParsePartial(sign, t, lo, hi);
    ParsePartial(sign, t, INT64_MIN, INT64_MAX);
  }

  lemma NumberEnds(t: CString, m: nat, rest: CString)
    requires t == Digits(m) + rest
    requires rest != [] && !(48 <= rest[0] <= 57) && !(65 <= rest[0] <= 90) && !(97 <= rest[0] <= 122)
    ensures t != [] && 48 <= t[0] <= 57 && ParseMagnitude(t).used < |t|
  {
    MagnitudeStops(m, rest);
    assert t[0] == Digits(m)[0];
  }

  lemma PrintedThenText(n: int, rest: CString, t: CString)
    requires t == Digits(if n < 0 then -n else n) + rest
    ensures PrintInt(n) + rest == (if n < 0 then [45] else []) + t
  {
    if n < 0 {
      assert [45] + Digits(-n) + rest == [45] + (Digits(-n) + rest);
    } else {
      assert [] + t == t;
    }
  }

  /** Text behind a number that is neither digit nor letter does. */
  lemma TrailingText(n: int, rest: CString, s: CString, fallback: int, lo: int, hi: int)
    requires s == PrintInt(n) + rest
    requires rest != [] && !(48 <= rest[0] <= 57) && !(65 <= rest[0] <= 90) && !(97 <= rest[0] <= 122)
    ensures TextToInt32(s, fallback, lo, hi) == fallback
    ensures TextToInt64(s, fallback) == fallback
  {
    var m := if n < 0 then -n else n;
    var t: CString := Digits(m) + rest;
    NumberEnds(t, m, rest);
    PrintedThenText(n, rest, t);
    NotWhole(s, if n < 0 then [45] else [], t, fallback, lo, hi);
  }

  function Pow10(k: nat): nat {
    if k == 0 then 1 else 10 * Pow10(k - 1)
  }

  lemma {:induction false} DigitsLength(n: nat, k: nat)
    requires k > 0 && n < Pow10(k)
    ensures |Digits(n)| <= k
  {
    if n >= 10 {
      assert n < 10 * Pow10(k - 1);
      DigitsLength(n / 10, k - 1);
    }
  }

  lemma Pow10Nineteen()
    ensures Pow10(19) == 10_000_000_000_000_000_000
  {
    assert Pow10(4) == 10_000;
    assert Pow10(8) == 100_000_000;
    assert Pow10(12) == 1_000_000_000_000;
    assert Pow10(16) == 10_000_000_000_000_000;
  }

  /** Every 64-bit number prints within the 32-byte buffer and within a stored value. */
  lemma PrintedIsShort(n: int)
    requires INT64_MIN <= n <= INT64_MAX
    ensures |PrintInt(n)| <= 20
  {
    Pow10Nineteen();
    DigitsLength(if n < 0 then -n else n, 19);
  }

  /** The string a get without a default leaves in the typed getter's buffer. */
  function GetText(temporary: bool, env: Env, view: map<Bytes, Bytes>, key: CString): Option<CString> {
    MapOp(temporary, env, view, GetOp(key, None)).answer.text
  }

  lemma SetThenGetText(temporary: bool, env: Env, view: map<Bytes, Bytes>, key: CString, text: CString)
    requires !LongName(key) && |text| < VALUE_MAX
    requires MapOp(temporary, env, view, SetOp(key, text)).answer.code == 0
    ensures var m := MapOp(temporary, env, view, SetOp(key, text));
            GetText(temporary, m.env, m.view, key) == Some(text)
  {
    SetIsVisible(temporary, env, view, key, text, key);
    var m := MapOp(temporary, env, view, SetOp(key, text));
    GetReadsVisible(temporary, m.env, m.view, key, None);
  }

  lemma WholeText64(s: CString, n: int, fallback: int)
    requires s != [] && ParseInt(s, INT64_MIN, INT64_MAX) == Parsed(n, |s|, false)
    ensures TextToInt64(s, fallback) == n
  {
  }

  lemma WholeText32(s: CString, n: int, fallback: int, lo: int, hi: int)
    requires s != [] && ParseInt(s, lo, hi) == Parsed(n, |s|, false) && INT32_MIN <= n <= INT32_MAX
    ensures TextToInt32(s, fallback, lo, hi) == n
  {
  }

  lemma PrintedReadsBack(n: int, fallback: int, lo: int, hi: int)
    requires INT64_MIN <= n <= INT64_MAX && lo <= INT32_MIN && INT32_MAX <= hi
    ensures TextToInt64(PrintInt(n), fallback) == n
    ensures INT32_MIN <= n <= INT32_MAX ==> TextToInt32(PrintInt(n), fallback, lo, hi) == n
  {
    var s := PrintInt(n);
    ParseUndoesPrint(n, INT64_MIN, INT64_MAX);
    WholeText64(s, n, fallback);
    if INT32_MIN <= n <= INT32_MAX {
      ParseUndoesPrint(n, lo, hi);
      WholeText32(s, n, fallback, lo, hi);
    }
  }

  /** Integers round trip: for every 32-bit and 64-bit number, extremes included, a successful set is
      read back as the same number, whatever the width of `long`. */
  lemma IntRoundTrip(temporary: bool, env: Env, view: map<Bytes, Bytes>, key: CString, n: int, fallback: int,
                     lo: int, hi: int)
    requires INT64_MIN <= n <= INT64_MAX && !LongName(key) && lo <= INT32_MIN && INT32_MAX <= hi
    requires MapOp(temporary, env, view, SetOp(key, PrintInt(n))).answer.code == 0
    ensures var m := MapOp(temporary, env, view, SetOp(key, PrintInt(n)));
            var text := GetText(temporary, m.env, m.view, key);
            && text.Some?
            && TextToInt64(text.value, fallback) == n
            && (INT32_MIN <= n <= INT32_MAX ==> TextToInt32(text.value, fallback, lo, hi) == n)
  {
    PrintedIsShort(n);
    SetThenGetText(temporary, env, view, key, PrintInt(n));
    PrintedReadsBack(n, fallback, lo, hi);
  }

  /** What a wider type would hold overflows a narrower one. */
  lemma OutOfRange(s: CString, n: int, low: int, high: int, lo: int, hi: int)
    requires s != [] && ParseInt(s, low, high) == Parsed(n, |s|, false) && low <= lo && hi <= high
    requires n < lo || n > hi
    ensures ParseInt(s, lo, hi).overflow
  {
  }

  /** The 64-bit getter on any printed number. */
  lemma Int64OfWideNumber(n: int, fallback: int)
    ensures TextToInt64(PrintInt(n), fallback)
         == if -0x8000_0000_0000_0000 <= n < 0x8000_0000_0000_0000 then n else fallback
  {
    if INT64_MIN <= n <= INT64_MAX {
      ParseUndoesPrint(n, INT64_MIN, INT64_MAX);
    } else {
      var low, high := if n < INT64_MIN then n else INT64_MIN, if n > INT64_MAX then n else INT64_MAX;
      ParseUndoesPrint(n, low, high);
      OutOfRange(PrintInt(n), n, low, high, INT64_MIN, INT64_MAX);
    }
  }

  /** A text that is empty or starts like no number makes both getters return the default. */
  lemma NotANumber(s: CString, fallback: int, lo: int, hi: int)
    requires s == [] || !(s[0] in {9, 10, 11, 12, 13, 32, 43, 45} || 48 <= s[0] <= 57)
    ensures TextToInt32(s, fallback, lo, hi) == fallback && TextToInt64(s, fallback) == fallback
  {
    assert SpaceSpan(s) == 0 && s[0..] == s;
  }

  /** The printed form is the usual one: a '-' for a negative number and nothing for others, then decimal
      digits without leading zeros. */
  lemma PrintedForm(n: int, i: nat)
    requires i < |PrintInt(n)|
    ensures n < 0 ==> PrintInt(n)[0] == 45 && |PrintInt(n)| > 1
    ensures 48 <= PrintInt(n)[i] <= 57 || (n < 0 && i == 0)
    ensures n > 0 ==> PrintInt(n)[0] != 48
    ensures n < 0 ==> PrintInt(n)[1] != 48
    ensures n == 0 ==> PrintInt(n) == [48]
  {
  }

  lemma WrapIsCongruent(n: int)
    ensures -0x8000_0000 <= Wrap32(n) < 0x8000_0000 && (Wrap32(n) - n) % 0x1_0000_0000 == 0
  {
    assert n == WORD * (n / WORD) + n % WORD;
  }

  /** A printed number outside the 32-bit range reads back as itself modulo the word when `long` is
      wide enough to hold it, and as the default otherwise. */
  lemma Int32OfWideNumber(n: int, fallback: int, lo: int, hi: int)
    requires lo <= INT32_MIN && INT32_MAX <= hi
    ensures var r := TextToInt32(PrintInt(n), fallback, lo, hi);
            if lo <= n <= hi then -0x8000_0000 <= r < 0x8000_0000 && (r - n) % 0x1_0000_0000 == 0 else r == fallback
  {
    if lo <= n <= hi {
      ParseUndoesPrint(n, lo, hi);
      WrapIsCongruent(n);
    } else {
      var low, high := if n < lo then n else lo, if n > hi then n else hi;
      ParseUndoesPrint(n, low, high);
      OutOfRange(PrintInt(n), n, low, high, lo, hi);
    }
  }
}
