/** The `decode` functions: a multihash read from a byte buffer or from
    its hexadecimal spelling. */
module Decode {
  import opened Defs
  import opened Registry
  import opened Record
  import opened Binary

  /** What a call of `decode(Bytes &buf, Multihash &m)` leaves behind: the
      error it returns, the multihash parameter, and the buffer, which
      `uvarint` shortens in place. */
  datatype Outcome = Outcome(err: Option<Error>, mh: Multihash, rest: seq<byte>)

  /** `decode(Bytes &buf, Multihash &m)`: the checks in the source's order;
      `m` is only replaced on success. */
  function DecodeSpec(buf: seq<byte>, m: Multihash): (r: Outcome)
    ensures r.err.Some? ==> r.mh == m
    ensures r.err == Some(TooShort) <==> |buf| < 2
    ensures |r.rest| <= |buf| && buf[|buf| - |r.rest|..] == r.rest
    ensures r.err.None? ==>
              IsRegistered(r.mh.code) && r.mh.hash == HashByCode[r.mh.code] &&
              r.mh.length == |r.mh.digest| && r.mh.digest == r.rest && |r.rest| <= |buf| - 2
  {
    assert buf[|buf| - |buf|..] == buf;
    if |buf| < 2 then Outcome(Some(TooShort), m, buf)
    else
      var codeRead := ReadUvarint(buf);
      assert codeRead.Err? ==> codeRead.error != TooShort;
      if codeRead.Err? then Outcome(Some(codeRead.error), m, buf)
      else
        var afterCode := codeRead.value.1;
        assert |afterCode| < |buf| && buf[|buf| - |afterCode|..] == afterCode;
        var lengthRead := ReadUvarint(afterCode);
        assert lengthRead.Err? ==> lengthRead.error != TooShort;
        if lengthRead.Err? then Outcome(Some(lengthRead.error), m, afterCode)
        else
          var digest := lengthRead.value.1;
          SuffixOfSuffix(buf, afterCode, digest);
          CheckFields(codeRead.value.0, lengthRead.value.0, digest, m)
  }

  /** The last two checks of `decode`, once both varints are read: the
      declared length against the bytes left, then the code's lookup. */
  function CheckFields(code: nat, length: nat, digest: seq<byte>, m: Multihash): (r: Outcome)
    ensures r.rest == digest
    ensures r.err.Some? ==> r.mh == m && r.err != Some(TooShort)
    ensures r.err.None? <==> length == |digest| && IsRegistered(code)
    ensures r.err.None? ==>
              r.mh.code == code && r.mh.hash == HashByCode[code] &&
              r.mh.length == length && r.mh.digest == digest
  {
    if |digest| != length then Outcome(Some(InconsistentLength), m, digest)
    else if !IsRegistered(code) then Outcome(Some(UnknownHashCode), m, digest)
    else Outcome(None, NewMultihash(code, length, digest).value, digest)
  }

  /** A suffix of a suffix of `buf` is a suffix of `buf`. */
  lemma SuffixOfSuffix(buf: seq<byte>, a: seq<byte>, d: seq<byte>)
    requires |a| <= |buf| && buf[|buf| - |a|..] == a
    requires |d| <= |a| && a[|a| - |d|..] == d
    ensures buf[|buf| - |d|..] == d
  {
    assert a[|a| - |d|..] == buf[|buf| - |d|..];
  }

  /** `decode(Bytes &buf, Multihash &m)`. */
  method DecodeInto(buf: ByteBuf, m: Multihash) returns (err: Option<Error>, m': Multihash)
    modifies buf
    ensures Outcome(err, m', buf.data) == DecodeSpec(old(buf.data), m)
  {
    if |buf.data| < 2 {
      return Some(TooShort), m;
    }
    var code, codeErr := Uvarint(buf);
    if codeErr.Some? {
      return codeErr, m;
    }
    var length, lengthErr := Uvarint(buf);
    if lengthErr.Some? {
      return lengthErr, m;
    }
    if |buf.data| != length {
      return Some(InconsistentLength), m;
    }
    if !IsRegistered(code) {
      return Some(UnknownHashCode), m;
    }
    m' := NewMultihash(code, length, buf.data).value;
    return None, m';
  }

  /** `decode(Bytes &buf)`: decodes into a default multihash and returns it
      together with the error, so the multihash is always present. */
  method Decode(buf: ByteBuf) returns (m: Option<Multihash>, err: Option<Error>)
    modifies buf
    ensures m == Some(DecodeSpec(old(buf.data), Default).mh)
    ensures err == DecodeSpec(old(buf.data), Default).err
    ensures buf.data == DecodeSpec(old(buf.data), Default).rest
  {
    var mh;
    err, mh := DecodeInto(buf, Default);
    m := Some(mh);
  }

  /** `decode(std::string str)`: the text is turned into bytes first. */
  method DecodeText(str: string) returns (m: Option<Multihash>, err: Option<Error>)
    ensures m == Some(DecodeSpec(HexToBytes(str), Default).mh)
    ensures err == DecodeSpec(HexToBytes(str), Default).err
  {
    var bytes := DecodeHex(str);
    var buf := new ByteBuf(bytes);
    m, err := Decode(buf);
  }

  /** `decode(std::string str, Multihash &m)`. */
  method DecodeTextInto(str: string, m: Multihash) returns (err: Option<Error>, m': Multihash)
    ensures err == DecodeSpec(HexToBytes(str), m).err
    ensures m' == DecodeSpec(HexToBytes(str), m).mh
  {
    var bytes := DecodeHex(str);
    var buf := new ByteBuf(bytes);
    err, m' := DecodeInto(buf, m);
  }

  /** On success the buffer is the bytes of the code's varint, then the
      bytes of the length's varint, then the digest, and each varint decodes
      on its own to the field it gave. */
  lemma DecodeSuccessSplits(buf: seq<byte>, m: Multihash)
    requires DecodeSpec(buf, m).err.None?
    ensures var r := DecodeSpec(buf, m);
            var c1 := UvarintOf(buf).1;
            0 < c1 <= |buf| &&
            var c2 := UvarintOf(buf[c1..]).1;
            0 < c2 && c1 + c2 + |r.mh.digest| == |buf| &&
            UvarintOf(buf[..c1]) == (r.mh.code, c1) &&
            UvarintOf(buf[c1..c1 + c2]) == (r.mh.length, c2) &&
            buf[c1 + c2..] == r.mh.digest
  {
    var r := DecodeSpec(buf, m);
    DecodeSuccessReads(buf, m);
    var c1 := UvarintOf(buf).1;
    UvarintOwnBytes(buf);
    var after := buf[c1..];
    var c2 := UvarintOf(after).1;
    UvarintOwnBytes(after);
    SliceOfSlice(buf, c1, c2);
    assert UvarintOf(buf[..c1]) == (r.mh.code, c1);
    assert UvarintOf(buf[c1..c1 + c2]) == (r.mh.length, c2);
    assert buf[c1 + c2..] == r.mh.digest;
  }

  /** Slicing a suffix again is slicing the original. */
  lemma SliceOfSlice(buf: seq<byte>, c1: nat, c2: nat)
    requires c1 + c2 <= |buf|
    ensures buf[c1..][..c2] == buf[c1..c1 + c2]
    ensures buf[c1..][c2..] == buf[c1 + c2..]
  {
  }

  /** On success, the fields come from the two `uvarint` reads. */
  lemma DecodeSuccessReads(buf: seq<byte>, m: Multihash)
    requires DecodeSpec(buf, m).err.None?
    ensures UvarintOf(buf).1 > 0
    ensures var after := buf[UvarintOf(buf).1..];
            UvarintOf(after).1 > 0 &&
            DecodeSpec(buf, m).mh.code == UvarintOf(buf).0 &&
            DecodeSpec(buf, m).mh.length == UvarintOf(after).0 &&
            DecodeSpec(buf, m).mh.digest == after[UvarintOf(after).1..]
  {
    var (code, c1) := UvarintOf(buf);
    assert c1 > 0 && ReadUvarint(buf) == Ok((code, buf[c1..]));
    var after := buf[c1..];
    var (length, c2) := UvarintOf(after);
    assert c2 > 0 && ReadUvarint(after) == Ok((length, after[c2..]));
  }

  /** Registered codes and any digest small enough to have a 64-bit length
      have an encoding. */
  lemma CodeFits64(code: nat)
    requires IsRegistered(code)
    ensures code < Pow2(64)
  {
    RegisteredCodesSmall(code);
    Pow2Literals();
    Pow2Le(21, 64);
  }

  /** `DecodeSpec` once both varints have been read. */
  lemma DecodeOfReads(buf: seq<byte>, code: nat, afterCode: seq<byte>, length: nat, digest: seq<byte>, m: Multihash)
    requires |buf| >= 2
    requires ReadUvarint(buf) == Ok((code, afterCode)) && ReadUvarint(afterCode) == Ok((length, digest))
    ensures DecodeSpec(buf, m) ==
              if |digest| != length then Outcome(Some(InconsistentLength), m, digest)
              else if !IsRegistered(code) then Outcome(Some(UnknownHashCode), m, digest)
              else Outcome(None, NewMultihash(code, length, digest).value, digest)
  {
  }

  /** `DecodeSpec` on the encoding of two varints and a digest: what is left
      is the length check and the registry lookup. */
  lemma DecodeEncoded(code: nat, length: nat, digest: seq<byte>, m: Multihash)
    requires code < Pow2(64) && length < Pow2(64)
    ensures DecodeSpec(EncodeVarint(code) + EncodeVarint(length) + digest, m) ==
              if |digest| != length then Outcome(Some(InconsistentLength), m, digest)
              else if !IsRegistered(code) then Outcome(Some(UnknownHashCode), m, digest)
              else Outcome(None, NewMultihash(code, length, digest).value, digest)
  {
    var lengthAndDigest := EncodeVarint(length) + digest;
    assert EncodeVarint(code) + EncodeVarint(length) + digest == EncodeVarint(code) + lengthAndDigest;
    ReadUvarintRoundTrip(code, lengthAndDigest);
    ReadUvarintRoundTrip(length, digest);
  }

  /** Decoding the encoding of a registered code, the digest length and the
      digest gives back a multihash of that code and digest, and leaves the
      digest in the buffer. */
  lemma DecodeRoundTrip(code: nat, digest: seq<byte>, m: Multihash)
    requires IsRegistered(code) && |digest| < Pow2(64)
    ensures DecodeSpec(EncodeVarint(code) + EncodeVarint(|digest|) + digest, m) ==
              Outcome(None, Multihash(HashByCode[code], code, |digest|, digest), digest)
  {
    CodeFits64(code);
    DecodeEncoded(code, |digest|, digest, m);
  }

  /** A well-formed multihash whose code is not registered is refused with
      `errUnknownHashCode`, and `m` is left as it was. */
  lemma DecodeUnknownCode(code: nat, digest: seq<byte>, m: Multihash)
    requires !IsRegistered(code) && code < Pow2(64) && |digest| < Pow2(64)
    ensures DecodeSpec(EncodeVarint(code) + EncodeVarint(|digest|) + digest, m) ==
              Outcome(Some(UnknownHashCode), m, digest)
  {
    DecodeEncoded(code, |digest|, digest, m);
  }

  /** A declared length that differs from the number of digest bytes is
      refused with `errInconsistantLength`, before the code is looked up. */
  lemma DecodeInconsistentLength(code: nat, length: nat, digest: seq<byte>, m: Multihash)
    requires code < Pow2(64) && length < Pow2(64) && length != |digest|
    ensures DecodeSpec(EncodeVarint(code) + EncodeVarint(length) + digest, m) ==
              Outcome(Some(InconsistentLength), m, digest)
  {
    DecodeEncoded(code, length, digest, m);
  }

  /** A buffer of two or more bytes that ends inside the code's varint is
      refused with `errVarIntBufferTooShort` and left as it was. */
  lemma DecodeTruncatedCode(buf: seq<byte>, m: Multihash)
    requires |buf| >= 2 && forall j :: 0 <= j < |buf| ==> buf[j] >= 0x80
    ensures DecodeSpec(buf, m) == Outcome(Some(VarIntBufferTooShort), m, buf)
  {
    ReadUvarintErrors(buf);
  }

  /** A buffer that ends inside the length's varint is refused with
      `errVarIntBufferTooShort`, and the code's bytes have been consumed. */
  lemma DecodeTruncatedLength(code: nat, tail: seq<byte>, m: Multihash)
    requires code < Pow2(64) && |tail| >= 1 && forall j :: 0 <= j < |tail| ==> tail[j] >= 0x80
    ensures DecodeSpec(EncodeVarint(code) + tail, m) == Outcome(Some(VarIntBufferTooShort), m, tail)
  {
    ReadUvarintRoundTrip(code, tail);
    ReadUvarintErrors(tail);
  }

  /** A code varint whose terminal byte comes too late is refused with
      `errVarIntTooLong`. */
  lemma DecodeOverlongCode(buf: seq<byte>, m: Multihash)
    requires Terminal(buf).Some? && Terminal(buf).value >= 10
    ensures DecodeSpec(buf, m) == Outcome(Some(VarIntTooLong), m, buf)
  {
    ReadUvarintErrors(buf);
  }

  /** The error and the decoded multihash do not depend on what `m` held
      before, which is why `decode(Bytes &)` can start from a default. */
  lemma DecodeIgnoresTarget(buf: seq<byte>, m1: Multihash, m2: Multihash)
    ensures DecodeSpec(buf, m1).err == DecodeSpec(buf, m2).err
    ensures DecodeSpec(buf, m1).rest == DecodeSpec(buf, m2).rest
    ensures DecodeSpec(buf, m1).err.None? ==> DecodeSpec(buf, m1).mh == DecodeSpec(buf, m2).mh
  {
  }

  /** A SHA-1 multihash: code 0x11, length 0x14, twenty digest bytes. */
  lemma DecodeSha1(digest: seq<byte>, m: Multihash)
    requires |digest| == 20
    ensures DecodeSpec([0x11, 0x14] + digest, m) == Outcome(None, Multihash(SHA1, 0x11, 20, digest), digest)
  {
    assert IsRegistered(0x11) && HashByCode[0x11] == SHA1;
    var header := EncodeVarint(0x11) + EncodeVarint(|digest|);
    assert header == [0x11, 0x14];
    Pow2Group(0);
    Pow2Le(7, 64);
    DecodeRoundTrip(0x11, digest, m);
    assert [0x11, 0x14] + digest == header + digest;
  }

  /** The five-byte code 0x91 0x80 0x80 0x80 0x10 spells 0x1_0000_0011, an
      unregistered code, so the multihash with that code and an empty digest
      is refused; the source's 32-bit accumulator reads the code as 0x11,
      the registered code of SHA-1, and the byte 0x00 after it reads as
      length 0 with nothing left, so as written the buffer is accepted as
      SHA-1 with an empty digest. */
  lemma DecodeTruncatedCodeAlias(m: Multihash)
    ensures DecodeSpec([0x91, 0x80, 0x80, 0x80, 0x10, 0x00], m) == Outcome(Some(UnknownHashCode), m, [])
    ensures UvarintAsWritten([0x91, 0x80, 0x80, 0x80, 0x10, 0x00]) == (0x11, 5) && IsRegistered(0x11)
    ensures ReadUvarint([0x00]) == Ok((0, []))
    ensures NewMultihash(0x11, 0, []) == Some(Multihash(SHA1, 0x11, 0, []))
  {
    var buf: seq<byte> := [0x91, 0x80, 0x80, 0x80, 0x10, 0x00];
    FiveByteCodeRead();
    UnregisteredAboveTable(0x1_0000_0011);
    DecodeOfReads(buf, 0x1_0000_0011, [0x00], 0, [], m);
    AliasAcceptedAsWritten();
  }

  /** The rest of the source's path for the aliased code 0x11: the length
      byte reads as 0 with nothing left, and the constructor accepts SHA-1
      with an empty digest. */
  lemma AliasAcceptedAsWritten()
    ensures IsRegistered(0x11)
    ensures ReadUvarint([0x00]) == Ok((0, []))
    ensures NewMultihash(0x11, 0, []) == Some(Multihash(SHA1, 0x11, 0, []))
  {
    ReadUvarintZero();
  }

  /** Decoding hex text written by `HexOf` is decoding the bytes it spells. */
  lemma DecodeTextOfHex(bytes: seq<byte>, m: Multihash)
    ensures DecodeSpec(HexToBytes(HexOf(bytes)), m) == DecodeSpec(bytes, m)
  {
    HexRoundTrip(bytes);
  }

  /** Text of fewer than three characters spells at most one byte and is
      refused as too short: the empty string and a single digit among them. */
  lemma DecodeShortText(str: string, m: Multihash)
    requires |str| <= 2
    ensures DecodeSpec(HexToBytes(str), m).err == Some(TooShort)
  {
  }
}
