/** The `binary` helpers of the decoder: unsigned LEB128 varints read from
    the front of a buffer, and hexadecimal text turned into bytes. */
module Binary {
  import opened Defs

  function Pow2(n: nat): (p: nat)
    ensures p >= 1
  {
    if n == 0 then 1 else 2 * Pow2(n - 1)
  }

  lemma {:induction false} Pow2Add(a: nat, b: nat)
    ensures Pow2(a + b) == Pow2(a) * Pow2(b)
    decreases a
  {
    if a > 0 {
      Pow2Add(a - 1, b);
    }
  }

  /** `Pow2(7 * n)` is the weight of the group at index `n`. */
  lemma Pow2Group(n: nat)
    ensures Pow2(7 * (n + 1)) == 128 * Pow2(7 * n)
  {
    Pow2Add(7 * n, 7);
    assert Pow2(7) == 128;
  }

  /** Scaling by a larger factor gives a larger product. */
  lemma MulLe(a: nat, b: nat, c: nat)
    requires a <= b
    ensures a * c <= b * c
  {
  }

  /** Moving the factor 128 of a group's weight out of a sum. */
  lemma ShiftGroup(low: nat, group: nat, weight: nat)
    ensures 128 * (low + group * weight) == 128 * low + group * (128 * weight)
  {
  }

  /** A larger exponent gives a larger power. */
  lemma {:induction false} Pow2Le(a: nat, b: nat)
    requires a <= b
    ensures Pow2(a) <= Pow2(b)
    decreases b
  {
    if a < b {
      Pow2Le(a, b - 1);
    }
  }

  /** The seven payload bits of a varint byte (`b & 0x7f`). */
  function Low7(b: byte): (low: nat)
    ensures low < 128
    ensures b < 0x80 ==> low == b
    ensures b >= 0x80 ==> low == b - 0x80
  {
    b % 128
  }

  /** The number the first `n` bytes of `buf` spell as little-endian groups
      of seven bits: the first group, plus 128 times the number the next
      groups spell. */
  function GroupsValue(buf: seq<byte>, n: nat): (v: nat)
    requires n <= |buf|
    ensures v < Pow2(7 * n)
  {
    if n == 0 then 0
    else
      Pow2Group(n - 1);
      Low7(buf[0]) + 128 * GroupsValue(buf[1..], n - 1)
  }

  /** The sum the loop of `binUvarint` accumulates: the group at index
      `n - 1` is added with weight `2^(7(n-1))`. */
  lemma {:induction false} GroupsValueStep(buf: seq<byte>, n: nat)
    requires 0 < n <= |buf|
    ensures GroupsValue(buf, n) == GroupsValue(buf, n - 1) + Low7(buf[n - 1]) * Pow2(7 * (n - 1))
    decreases n
  {
    if n > 1 {
      var rest := buf[1..];
      GroupsValueStep(rest, n - 1);
      assert rest[n - 2] == buf[n - 1];
      Pow2Group(n - 2);
      ShiftGroup(GroupsValue(rest, n - 2), Low7(buf[n - 1]), Pow2(7 * (n - 2)));
    }
  }

  /** The groups depend only on the bytes they are read from. */
  lemma {:induction false} GroupsValuePrefix(buf: seq<byte>, tail: seq<byte>, n: nat)
    requires n <= |buf|
    ensures GroupsValue(buf + tail, n) == GroupsValue(buf, n)
    decreases n
  {
    if n > 0 {
      assert (buf + tail)[1..] == buf[1..] + tail;
      GroupsValuePrefix(buf[1..], tail, n - 1);
    }
  }

  /** Reading one more group at the front shifts the others up by seven bits. */
  lemma GroupsValueCons(b: byte, rest: seq<byte>, n: nat)
    requires n <= |rest|
    ensures GroupsValue([b] + rest, n + 1) == Low7(b) + 128 * GroupsValue(rest, n)
  {
    assert ([b] + rest)[1..] == rest;
  }

  /** The index of the first byte without the continuation bit, the byte
      that ends a varint. */
  function Terminal(buf: seq<byte>): (t: Option<nat>)
    ensures t.Some? ==> t.value < |buf| && buf[t.value] < 0x80
    ensures t.Some? ==> forall j :: 0 <= j < t.value ==> buf[j] >= 0x80
    ensures t.None? ==> forall j :: 0 <= j < |buf| ==> buf[j] >= 0x80
  {
    if |buf| == 0 then None
    else if buf[0] < 0x80 then Some(0)
    else
      match Terminal(buf[1..])
      case None => None
      case Some(k) => Some(k + 1)
  }

  /** The terminal byte is the one the three conditions single out. */
  lemma TerminalAt(buf: seq<byte>, t: nat)
    requires t < |buf| && buf[t] < 0x80
    requires forall j :: 0 <= j < t ==> buf[j] >= 0x80
    ensures Terminal(buf) == Some(t)
  {
  }

  /** `binUvarint` as written in the source: the overflow guard fires only
      for a terminal byte above 1 at an index of at least 9, and the result
      is an `unsigned int`, so only the low 32 bits of the value survive. */
  function UvarintAsWritten(buf: seq<byte>): (r: (nat, int))
    ensures r.1 >= 0 ==> r.0 < 0x1_0000_0000
  {
    match Terminal(buf)
    case None => (0, 0)
    case Some(t) =>
      if t >= 9 && buf[t] > 1 then (0, -(t + 1))
      else (GroupsValue(buf, t + 1) % 0x1_0000_0000, t + 1)
  }

  /** `binUvarint` with the overflow guard of a ten-byte LEB128 reader (as
      in Go's `binary.Uvarint`): the value and the count of bytes read, a
      count of 0 when the buffer ends inside the varint, and minus the count
      when the terminal byte is past the tenth, or is the tenth and carries
      more than bit 63. That refuses every value of 64 bits or more, and also
      every encoding of eleven or more bytes, even of a small value. */
  function UvarintOf(buf: seq<byte>): (r: (nat, int))
  {
    match Terminal(buf)
    case None => (0, 0)
    case Some(t) =>
      if t > 9 || (t == 9 && buf[t] > 1) then (0, -(t + 1))
      else (GroupsValue(buf, t + 1), t + 1)
  }

  /** The loop of `binUvarint`, with the overflow guard corrected and a
      64-bit accumulator: each byte's payload lands above the bits already
      set, so `x | (b & 0x7f) << s` is an addition. */
  method BinUvarint(buf: seq<byte>) returns (x: nat, count: int)
    ensures (x, count) == UvarintOf(buf)
  {
    x := 0;
    var s: nat := 0;
    var i := 0;
    while i < |buf|
      invariant 0 <= i <= |buf|
      invariant s == 7 * i
      invariant x == GroupsValue(buf, i)
      invariant forall j :: 0 <= j < i ==> buf[j] >= 0x80
    {
      var b := buf[i];
      GroupsValueStep(buf, i + 1);
      if b < 0x80 {
        TerminalAt(buf, i);
        if i > 9 || (i == 9 && b > 1) {
          return 0, -(i + 1);
        }
        return x + b * Pow2(s), i + 1;
      }
      x := x + Low7(b) * Pow2(s);
      s := s + 7;
      i := i + 1;
    }
    return 0, 0;
  }

  /** What the count says: 0 exactly when no byte ends the varint;
      otherwise its magnitude is the number of bytes up to and including the
      terminal byte; it is negative exactly when that byte is past the
      tenth, or is the tenth and carries more than one bit. */
  lemma UvarintCount(buf: seq<byte>)
    ensures UvarintOf(buf).1 == 0 <==> forall j :: 0 <= j < |buf| ==> buf[j] >= 0x80
    ensures UvarintOf(buf).1 != 0 ==>
              var n := if UvarintOf(buf).1 < 0 then -UvarintOf(buf).1 else UvarintOf(buf).1;
              1 <= n <= |buf| && buf[n - 1] < 0x80 &&
              (forall j :: 0 <= j < n - 1 ==> buf[j] >= 0x80) &&
              (UvarintOf(buf).1 < 0 <==> n > 10 || (n == 10 && buf[9] > 1))
  {
    match Terminal(buf)
    case None =>
    case Some(t) =>
      TerminalAt(buf, t);
  }

  /** A successful read uses at most ten bytes and yields a 64-bit value. */
  lemma {:induction false} UvarintFits64(buf: seq<byte>)
    requires UvarintOf(buf).1 > 0
    ensures UvarintOf(buf).1 <= 10
    ensures UvarintOf(buf).0 < Pow2(64)
  {
    var t := Terminal(buf).value;
    if t == 9 {
      var low, group, weight := GroupsValue(buf, t), Low7(buf[t]), Pow2(7 * t);
      GroupsValueStep(buf, t + 1);
      MulLe(group, 1, weight);
      assert Pow2(7 * t + 1) == 2 * weight;
      assert low + group * weight < Pow2(64);
    } else {
      Pow2Le(7 * (t + 1), 64);
    }
  }

  /** Bytes after the terminal byte are never looked at. */
  lemma {:induction false} UvarintPrefix(buf: seq<byte>, tail: seq<byte>)
    requires UvarintOf(buf).1 != 0
    ensures UvarintOf(buf + tail) == UvarintOf(buf)
  {
    var t := Terminal(buf).value;
    assert forall j :: 0 <= j <= t ==> (buf + tail)[j] == buf[j];
    TerminalAt(buf + tail, t);
    GroupsValuePrefix(buf, tail, t + 1);
  }

  /** A successful read is a read of its own bytes: the varint is the
      first `count` bytes and they decode alone to the same value. */
  lemma UvarintOwnBytes(buf: seq<byte>)
    requires UvarintOf(buf).1 > 0
    ensures UvarintOf(buf).1 <= |buf|
    ensures UvarintOf(buf[..UvarintOf(buf).1]) == UvarintOf(buf)
  {
    var c := UvarintOf(buf).1;
    var t := Terminal(buf).value;
    var head := buf[..c];
    TerminalAt(head, t);
    UvarintPrefix(head, buf[c..]);
    assert head + buf[c..] == buf;
  }

  /** The unsigned LEB128 encoding of `v`, least significant group first. */
  function EncodeVarint(v: nat): (e: seq<byte>)
    ensures |e| >= 1
    decreases v
  {
    if v < 128 then [v] else [128 + v % 128] + EncodeVarint(v / 128)
  }

  /** A value below `2 * 2^(7k)` takes at most `k + 1` bytes, and when it
      takes exactly `k + 1` its last byte is 0 or 1. */
  lemma {:induction false} EncodeVarintShape(v: nat, k: nat)
    requires v < 2 * Pow2(7 * k)
    ensures |EncodeVarint(v)| <= k + 1
    ensures |EncodeVarint(v)| == k + 1 ==> EncodeVarint(v)[k] <= 1
  {
    if v >= 128 {
      if k == 0 {
        assert false;
      }
      Pow2Group(k - 1);
      EncodeVarintShape(v / 128, k - 1);
      assert EncodeVarint(v)[1..] == EncodeVarint(v / 128);
    }
  }

  /** A continuation byte in front moves the terminal byte one place on. */
  lemma TerminalCons(b: byte, rest: seq<byte>)
    requires b >= 0x80
    ensures Terminal([b] + rest) == match Terminal(rest) case None => None case Some(k) => Some(k + 1)
  {
    assert ([b] + rest)[1..] == rest;
  }

  /** Reading the encoding back: the terminal byte is the last one and the
      groups spell `v`. */
  lemma {:induction false} EncodeVarintGroups(v: nat, tail: seq<byte>)
    ensures Terminal(EncodeVarint(v) + tail) == Some(|EncodeVarint(v)| - 1)
    ensures GroupsValue(EncodeVarint(v) + tail, |EncodeVarint(v)|) == v
    decreases v
  {
    var e := EncodeVarint(v);
    if v < 128 {
      TerminalAt(e + tail, 0);
      GroupsValueStep(e + tail, 1);
    } else {
      var b: byte, r := 128 + v % 128, EncodeVarint(v / 128);
      var rt := r + tail;
      EncodeVarintGroups(v / 128, tail);
      assert e + tail == [b] + rt;
      TerminalCons(b, rt);
      GroupsValueCons(b, rt, |r|);
      assert Low7(b) == v % 128;
      assert GroupsValue(rt, |r|) == v / 128;
    }
  }

  /** Decoding the encoding of any 64-bit value gives the value back and
      consumes exactly the encoding, whatever follows it. */
  lemma UvarintRoundTrip(v: nat, tail: seq<byte>)
    requires v < Pow2(64)
    ensures 1 <= |EncodeVarint(v)| <= 10
    ensures UvarintOf(EncodeVarint(v) + tail) == (v, |EncodeVarint(v)|)
  {
    assert Pow2(64) == 2 * Pow2(7 * 9);
    EncodeVarintShape(v, 9);
    EncodeVarintGroups(v, tail);
    var e := EncodeVarint(v);
    var t := |e| - 1;
    assert Terminal(e + tail) == Some(t);
    assert (e + tail)[t] == e[t];
    assert !(t > 9 || (t == 9 && (e + tail)[t] > 1));
  }

  lemma Pow2Literals()
    ensures Pow2(7) == 128 && Pow2(14) == 16384
    ensures Pow2(21) == 0x20_0000 && Pow2(28) == 0x1000_0000
  {
    Pow2Group(1);
    Pow2Group(2);
    Pow2Group(3);
  }

  /** The one-byte decoding examples of the test suite. */
  lemma UvarintExamplesOneByte()
    ensures UvarintOf([1]) == (1, 1)
    ensures UvarintOf([0x11, 0x12, 0x13]) == (0x11, 1)
  {
  }

  /** The empty-buffer example of the test suite. */
  lemma UvarintExampleEmpty()
    ensures UvarintOf([]) == (0, 0)
  {
  }

  /** The decoding example of the test suite that reads 128 from two bytes. */
  lemma UvarintExample128()
    ensures UvarintOf([0x80, 0x01, 0x07]) == (128, 2)
  {
    var buf: seq<byte> := [0x80, 0x01, 0x07];
    TerminalAt(buf, 1);
  }

  /** The decoding example of the test suite that reads 255 from two bytes. */
  lemma UvarintExample255()
    ensures UvarintOf([0xff, 0x01, 0x07]) == (255, 2)
  {
    var buf: seq<byte> := [0xff, 0x01, 0x07];
    TerminalAt(buf, 1);
  }

  /** The decoding example of the test suite that reads 300 from two bytes. */
  lemma UvarintExample300()
    ensures UvarintOf([0xac, 0x02, 0x07]) == (300, 2)
  {
    var buf: seq<byte> := [0xac, 0x02, 0x07];
    TerminalAt(buf, 1);
  }

  /** The three-byte decoding example of the test suite. */
  lemma UvarintExample16384()
    ensures UvarintOf([0x80, 0x80, 0x01, 0x07]) == (16384, 3)
  {
    var buf: seq<byte> := [0x80, 0x80, 0x01, 0x07];
    TerminalAt(buf, 2);
  }

  /** The overflow example of the test suite: a tenth byte of 2. */
  lemma UvarintExampleOverflow()
    ensures UvarintOf([0x80, 0x80, 0x80, 0x80, 0x80, 0x80, 0x80, 0x80, 0x80, 0x02]) == (0, -10)
  {
    TerminalAt([0x80, 0x80, 0x80, 0x80, 0x80, 0x80, 0x80, 0x80, 0x80, 0x02], 9);
  }

  /** Ten continuation bytes and a terminal 0x01 spell 2^70, which does not
      fit in 64 bits; the source's guard lets the read succeed with 11 bytes,
      the corrected guard reports the overflow. */
  lemma ElevenByteVarintAccepted()
    ensures UvarintAsWritten(seq(10, _ => 0x80) + [0x01]).1 == 11
    ensures UvarintOf(seq(10, _ => 0x80) + [0x01]) == (0, -11)
  {
    var buf: seq<byte> := seq(10, _ => 0x80) + [0x01];
    TerminalAt(buf, 10);
  }

  /** The corrected guard caps the length, not only the value: ten 0x80
      bytes and 0x00 spell 0, yet count as an overflow of eleven bytes,
      which the source as written accepts. */
  lemma ElevenByteZeroRefused()
    ensures GroupsValue(seq(10, _ => 0x80) + [0x00], 11) == 0
    ensures UvarintOf(seq(10, _ => 0x80) + [0x00]) == (0, -11)
    ensures UvarintAsWritten(seq(10, _ => 0x80) + [0x00]) == (0, 11)
  {
    var buf: seq<byte> := seq(10, _ => 0x80) + [0x00];
    TerminalAt(buf, 10);
    var k := 11;
    while k > 0
      invariant 0 <= k <= 11
      invariant GroupsValue(buf[k..], 11 - k) == 0
    {
      GroupsValueCons(buf[k - 1], buf[k..], 11 - k);
      assert [buf[k - 1]] + buf[k..] == buf[k - 1..];
      k := k - 1;
    }
    assert buf[0..] == buf;
  }

  /** Terminal bytes that show the guard as written: at any index past the
      tenth byte a terminal 0 or 1 is accepted. */
  lemma GuardAsWrittenAcceptsLongVarints(buf: seq<byte>)
    requires Terminal(buf).Some? && Terminal(buf).value >= 10 && buf[Terminal(buf).value] <= 1
    ensures UvarintAsWritten(buf).1 == Terminal(buf).value + 1
    ensures UvarintOf(buf).1 == -(Terminal(buf).value + 1)
  {
  }

  /** The varint 0x91 0x80 0x80 0x80 0x10 spells 0x1_0000_0011; a 32-bit
      accumulator keeps 0x11, the code of SHA-1. */
  lemma FiveByteVarintTruncated()
    ensures UvarintOf([0x91, 0x80, 0x80, 0x80, 0x10]) == (0x1_0000_0011, 5)
    ensures UvarintAsWritten([0x91, 0x80, 0x80, 0x80, 0x10]) == (0x11, 5)
  {
    var buf: seq<byte> := [0x91, 0x80, 0x80, 0x80, 0x10];
    TerminalAt(buf, 4);
    assert buf[1..][1..][1..][1..] == [0x10];
  }

  /** The same varint followed by a zero byte: `uvarint` reads the code
      and leaves the zero, and the source's reading keeps 0x11. */
  lemma FiveByteCodeRead()
    ensures ReadUvarint([0x91, 0x80, 0x80, 0x80, 0x10, 0x00]) == Ok((0x1_0000_0011, [0x00]))
    ensures UvarintAsWritten([0x91, 0x80, 0x80, 0x80, 0x10, 0x00]) == (0x11, 5)
  {
    var code: seq<byte> := [0x91, 0x80, 0x80, 0x80, 0x10];
    var buf: seq<byte> := [0x91, 0x80, 0x80, 0x80, 0x10, 0x00];
    assert buf == code + [0x00];
    FiveByteVarintTruncated();
    UvarintPrefix(code, [0x00]);
    TerminalAt(buf, 4);
    GroupsValuePrefix(code, [0x00], 5);
    assert buf[5..] == [0x00];
  }

  /** A single zero byte is the varint 0. */
  lemma ReadUvarintZero()
    ensures ReadUvarint([0x00]) == Ok((0, []))
  {
  }

  /** On varints of at most four bytes, where no bit reaches past the 32nd,
      the source and the corrected reading agree. */
  lemma {:induction false} UvarintAsWrittenAgreesOnShort(buf: seq<byte>)
    requires UvarintOf(buf).1 != 0 ==> -4 <= UvarintOf(buf).1 <= 4
    ensures UvarintAsWritten(buf) == UvarintOf(buf)
  {
    match Terminal(buf)
    case None =>
    case Some(t) =>
      if t < 4 {
        Pow2Le(7 * (t + 1), 28);
        Pow2Literals();
        assert GroupsValue(buf, t + 1) < 0x1_0000_0000;
      }
  }

  /** What `uvarint` reports: the value and the bytes that follow the
      varint, or the error for a count of 0 or below 0. */
  function ReadUvarint(buf: seq<byte>): (r: Result<(nat, seq<byte>)>)
    ensures r.Err? ==> r.error == VarIntBufferTooShort || r.error == VarIntTooLong
    ensures r.Ok? ==> |r.value.1| < |buf| && buf[|buf| - |r.value.1|..] == r.value.1
  {
    var (n, c) := UvarintOf(buf);
    if c == 0 then Err(VarIntBufferTooShort)
    else if c < 0 then Err(VarIntTooLong)
    else
      UvarintCount(buf);
      Ok((n, buf[c..]))
  }

  /** The errors of `uvarint`, both directions. */
  lemma ReadUvarintErrors(buf: seq<byte>)
    ensures ReadUvarint(buf) == Err(VarIntBufferTooShort) <==>
              forall j :: 0 <= j < |buf| ==> buf[j] >= 0x80
    ensures ReadUvarint(buf) == Err(VarIntTooLong) <==>
              match Terminal(buf)
              case None => false
              case Some(t) => t > 9 || (t == 9 && buf[t] > 1)
    ensures ReadUvarint(buf).Ok? ==> ReadUvarint(buf).value.0 < Pow2(64)
  {
    UvarintCount(buf);
    if UvarintOf(buf).1 > 0 {
      UvarintFits64(buf);
    }
  }

  /** `uvarint` reads back what `EncodeVarint` writes and leaves the rest. */
  lemma ReadUvarintRoundTrip(v: nat, tail: seq<byte>)
    requires v < Pow2(64)
    ensures ReadUvarint(EncodeVarint(v) + tail) == Ok((v, tail))
  {
    UvarintRoundTrip(v, tail);
    var e := EncodeVarint(v);
    assert (e + tail)[|e|..] == tail;
  }

  /** `uvarint`: on success the buffer loses the bytes of the varint; on
      an error it is left as it was and the value is 0. */
  method Uvarint(buf: ByteBuf) returns (n: nat, err: Option<Error>)
    modifies buf
    ensures ReadUvarint(old(buf.data)).Ok? ==>
              err == None && n == ReadUvarint(old(buf.data)).value.0 &&
              buf.data == ReadUvarint(old(buf.data)).value.1
    ensures ReadUvarint(old(buf.data)).Err? ==>
              err == Some(ReadUvarint(old(buf.data)).error) && n == 0 && buf.data == old(buf.data)
  {
    var x, c := BinUvarint(buf.data);
    if c == 0 {
      return 0, Some(VarIntBufferTooShort);
    }
    if c < 0 {
      return 0, Some(VarIntTooLong);
    }
    UvarintCount(buf.data);
    buf.data := buf.data[c..];
    return x, None;
  }

  // ---------------------------------------------------------------------
  // Hexadecimal text

  predicate IsHexDigit(c: char)
  {
    '0' <= c <= '9' || 'a' <= c <= 'f' || 'A' <= c <= 'F'
  }

  function DigitValue(c: char): (d: nat)
    requires IsHexDigit(c)
    ensures d < 16
  {
    if '0' <= c <= '9' then c as int - '0' as int
    else if 'a' <= c <= 'f' then c as int - 'a' as int + 10
    else c as int - 'A' as int + 10
  }

  /** The white space `strtol` skips in the C locale. */
  predicate IsSpace(c: char)
  {
    c == ' ' || c == '\t' || c == '\n' || c == '\U{0B}' || c == '\U{0C}' || c == '\r'
  }

  /** `strtol(piece, NULL, 16)` on a piece of one or two characters,
      converted to `unsigned char`: leading white space and one sign are
      skipped, the longest run of hex digits is read, no digits give 0, and
      a negative result wraps modulo 256. A `0x` prefix never has a hex
      digit after it within two characters, so it reads as 0. */
  function StrtolByte(piece: string): (b: byte)
    requires 1 <= |piece| <= 2
  {
    if IsHexDigit(piece[0]) then
      if |piece| == 2 && IsHexDigit(piece[1]) then 16 * DigitValue(piece[0]) + DigitValue(piece[1])
      else DigitValue(piece[0])
    else if |piece| == 2 && IsHexDigit(piece[1]) && (IsSpace(piece[0]) || piece[0] == '+') then
      DigitValue(piece[1])
    else if |piece| == 2 && IsHexDigit(piece[1]) && piece[0] == '-' then
      (256 - DigitValue(piece[1])) % 256
    else 0
  }

  function Min(a: nat, b: nat): nat
  {
    if a <= b then a else b
  }

  /** What `decodeHex` returns: one byte per piece of two characters, the
      last piece being a single character when the length is odd. */
  function HexToBytes(hex: string): (bytes: seq<byte>)
    ensures |bytes| == (|hex| + 1) / 2
    decreases |hex|
  {
    if |hex| == 0 then []
    else
      var k := Min(2, |hex|);
      [StrtolByte(hex[..k])] + HexToBytes(hex[k..])
  }

  /** `hex.substr(i, 2)`. */
  function Substr2(hex: string, i: nat): (piece: string)
    requires i < |hex|
    ensures 1 <= |piece| <= 2
  {
    hex[i..Min(i + 2, |hex|)]
  }

  /** Byte `k` is the piece that starts at character `2k`. */
  lemma {:induction false} HexToBytesAt(hex: string, k: nat)
    requires k < (|hex| + 1) / 2
    ensures HexToBytes(hex)[k] == StrtolByte(Substr2(hex, 2 * k))
    decreases k
  {
    if k > 0 {
      var tail := hex[2..];
      var j := 2 * (k - 1);
      HexToBytesAt(tail, k - 1);
      assert HexToBytes(hex) == [StrtolByte(hex[..2])] + HexToBytes(tail);
      var end := Min(j + 2, |tail|);
      assert end + 2 == Min(2 * k + 2, |hex|);
      assert tail[j..end] == hex[2 * k..end + 2];
    }
  }

  /** On hex digits the bytes are the two-digit numbers, and a trailing odd
      digit is a byte of its own. */
  lemma HexDigitsValue(hex: string, k: nat)
    requires forall i :: 0 <= i < |hex| ==> IsHexDigit(hex[i])
    requires k < (|hex| + 1) / 2
    ensures 2 * k + 1 < |hex| ==>
              HexToBytes(hex)[k] == 16 * DigitValue(hex[2 * k]) + DigitValue(hex[2 * k + 1])
    ensures 2 * k + 1 == |hex| ==> HexToBytes(hex)[k] == DigitValue(hex[2 * k])
  {
    HexToBytesAt(hex, k);
  }

  /** The lowercase hex spelling of a digit value. */
  function HexDigit(d: nat): (c: char)
    requires d < 16
    ensures IsHexDigit(c) && DigitValue(c) == d
  {
    if d < 10 then ('0' as int + d) as char else ('a' as int + d - 10) as char
  }

  /** The lowercase hex spelling of a byte string, two digits per byte. */
  function HexOf(bytes: seq<byte>): (hex: string)
    ensures |hex| == 2 * |bytes|
  {
    if |bytes| == 0 then ""
    else [HexDigit(bytes[0] / 16), HexDigit(bytes[0] % 16)] + HexOf(bytes[1..])
  }

  /** Hex text written by `HexOf` is decoded to the bytes it spells. */
  lemma {:induction false} HexRoundTrip(bytes: seq<byte>)
    ensures HexToBytes(HexOf(bytes)) == bytes
  {
    if |bytes| > 0 {
      var h := HexOf(bytes);
      HexRoundTrip(bytes[1..]);
      assert h[..2] == [HexDigit(bytes[0] / 16), HexDigit(bytes[0] % 16)];
      assert h[2..] == HexOf(bytes[1..]);
    }
  }

  /** Text that is not clean hex: a sign, a piece without digits, and an odd
      length. */
  lemma HexToBytesExamples()
    ensures HexToBytes("") == []
    ensures HexToBytes("c") == [0x0c]
    ensures HexToBytes("abc") == [0xab, 0x0c]
    ensures HexToBytes("-f") == [0xf1]
    ensures HexToBytes("zz1g") == [0x00, 0x01]
  {
    assert "abc"[..2] == "ab" && "abc"[2..] == "c";
    assert "zz1g"[..2] == "zz" && "zz1g"[2..] == "1g";
    assert "1g"[2..] == "";
  }

  /** The text from character `i` on, empty once `i` is past the end. */
  function Rest(hex: string, i: nat): (rest: string)
    ensures i >= |hex| ==> rest == ""
  {
    if i <= |hex| then hex[i..] else ""
  }

  /** One unfolding of `HexToBytes` on the text from character `i` on. */
  lemma HexToBytesFrom(hex: string, i: nat)
    requires i < |hex|
    ensures HexToBytes(Rest(hex, i)) == [StrtolByte(Substr2(hex, i))] + HexToBytes(Rest(hex, i + 2))
  {
    assert hex[i..][..Min(2, |hex| - i)] == Substr2(hex, i);
    assert hex[i..][Min(2, |hex| - i)..] == Rest(hex, i + 2);
  }

  /** The same hex text with `a`..`f` written as `A`..`F`. */
  function UpperHex(c: char): (u: char)
  {
    if 'a' <= c <= 'f' then (c as int - 32) as char else c
  }

  /** A piece reads the same whatever the case of its letters. */
  lemma StrtolByteCase(piece: string, upper: string)
    requires 1 <= |piece| <= 2 && |upper| == |piece|
    requires forall i :: 0 <= i < |piece| ==> upper[i] == UpperHex(piece[i])
    ensures StrtolByte(upper) == StrtolByte(piece)
  {
  }

  /** `decodeHex` accepts either letter case: turning the letters of the
      text to uppercase gives the same bytes. */
  lemma {:induction false} HexToBytesCase(hex: string, upper: string)
    requires |upper| == |hex|
    requires forall i :: 0 <= i < |hex| ==> upper[i] == UpperHex(hex[i])
    ensures HexToBytes(upper) == HexToBytes(hex)
    decreases |hex|
  {
    if |hex| > 0 {
      var k := Min(2, |hex|);
      StrtolByteCase(hex[..k], upper[..k]);
      HexToBytesCase(hex[k..], upper[k..]);
    }
  }

  /** The loop of `decodeHex`: pieces taken two characters apart. */
  method DecodeHex(hex: string) returns (bytes: seq<byte>)
    ensures bytes == HexToBytes(hex)
  {
    bytes := [];
    var i: nat := 0;
    assert Rest(hex, 0) == hex;
    while i < |hex|
      invariant bytes + HexToBytes(Rest(hex, i)) == HexToBytes(hex)
      decreases |hex| - i
    {
      var piece := Substr2(hex, i);
      HexToBytesFrom(hex, i);
      assert (bytes + [StrtolByte(piece)]) + HexToBytes(Rest(hex, i + 2)) == bytes + HexToBytes(Rest(hex, i));
      bytes := bytes + [StrtolByte(piece)];
      i := i + 2;
    }
    assert bytes == bytes + HexToBytes(Rest(hex, i));
  }
}
