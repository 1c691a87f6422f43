/** The static hash-function registry: the numeric-code table, the name
    table and `validate`. */
module Registry {
  import opened Defs

  /** The `hash` enumeration, in declaration order. */
  datatype Hash =
    | ID
    | SHA1
    | SHA2_256
    | SHA2_512
    | SHA3_224
    | SHA3_256
    | SHA3_384
    | SHA3_512
    | SHA3
    | KECCAK_224
    | KECCAK_256
    | KECCAK_384
    | KECCAK_512
    | SHAKE_128
    | SHAKE_256
    | BLAKE2B_MIN
    | BLAKE2B_MAX
    | BLAKE2S_MIN
    | BLAKE2S_MAX
    | DBL_SHA2_256
    | MURMUR3
    | X11

  /** The initializer list of `hash_by_code`, entry for entry, including the
      second entry for code 0x14. */
  const CodeTable: seq<(nat, Hash)> := [
    (0x00, ID),
    (0x11, SHA1),
    (0x12, SHA2_256),
    (0x13, SHA2_512),
    (0x17, SHA3_224),
    (0x16, SHA3_256),
    (0x15, SHA3_384),
    (0x14, SHA3_512),
    (0x14, SHA3),
    (0x1A, KECCAK_224),
    (0x1B, KECCAK_256),
    (0x1C, KECCAK_384),
    (0x1D, KECCAK_512),
    (0x18, SHAKE_128),
    (0x19, SHAKE_256),
    (0xb201, BLAKE2B_MIN),
    (0xb240, BLAKE2B_MAX),
    (0xb241, BLAKE2S_MIN),
    (0xb260, BLAKE2S_MAX),
    (0x56, DBL_SHA2_256),
    (0x22, MURMUR3),
    (0x1100, X11)
  ]

  /** One insertion into a `std::map`: a key that is already present keeps
      its value. */
  function InsertOne<K, V>(m: map<K, V>, e: (K, V)): map<K, V>
  {
    if e.0 in m then m else m[e.0 := e.1]
  }

  /** What constructing a `std::map` from an initializer list does: the
      entries are inserted in order, and inserting a key that is already
      present leaves the map as it is. */
  function InsertAll<K, V>(m: map<K, V>, entries: seq<(K, V)>): map<K, V>
    decreases |entries|
  {
    if |entries| == 0 then m
    else
      InsertAll(InsertOne(m, entries[0]), entries[1..])
  }

  /** Reference reading of an initializer list: the value of the first
      entry with key `k`, if there is one. */
  function FirstMatch<K(==), V>(entries: seq<(K, V)>, k: K): Option<V>
  {
    if |entries| == 0 then None
    else if entries[0].0 == k then Some(entries[0].1)
    else FirstMatch(entries[1..], k)
  }

  /** Unfolds `InsertAll` by one entry. */
  lemma InsertFirst<K, V>(m: map<K, V>, entries: seq<(K, V)>)
    requires |entries| > 0
    ensures InsertAll(m, entries) == InsertAll(InsertOne(m, entries[0]), entries[1..])
  {
  }

  /** std::map construction agrees with the first-match reading: a key is
      present exactly when it is already in the map or appears in the list,
      and a key not already in the map gets the value of its first entry. */
  lemma {:induction false} InsertAllIsFirstMatch<K, V>(m: map<K, V>, entries: seq<(K, V)>, k: K)
    ensures k in InsertAll(m, entries) <==> k in m || FirstMatch(entries, k).Some?
    ensures k in m ==> InsertAll(m, entries)[k] == m[k]
    ensures k !in m && FirstMatch(entries, k).Some? ==>
              InsertAll(m, entries)[k] == FirstMatch(entries, k).value
    decreases |entries|
  {
    if |entries| > 0 {
      InsertAllIsFirstMatch(InsertOne(m, entries[0]), entries[1..], k);
    }
  }

  /** `hash_by_code` as constructed: `HashByCodeIsBuiltFromList` proves
      that inserting `CodeTable` into an empty std::map yields exactly this. */
  const HashByCode: map<nat, Hash> := map[
    0x00 := ID, 0x11 := SHA1, 0x12 := SHA2_256, 0x13 := SHA2_512,
    0x17 := SHA3_224, 0x16 := SHA3_256, 0x15 := SHA3_384, 0x14 := SHA3_512,
    0x1A := KECCAK_224, 0x1B := KECCAK_256, 0x1C := KECCAK_384, 0x1D := KECCAK_512,
    0x18 := SHAKE_128, 0x19 := SHAKE_256,
    0xb201 := BLAKE2B_MIN, 0xb240 := BLAKE2B_MAX, 0xb241 := BLAKE2S_MIN, 0xb260 := BLAKE2S_MAX,
    0x56 := DBL_SHA2_256, 0x22 := MURMUR3, 0x1100 := X11]

  /** `hash_name`. Its keys are distinct, so a map display states it. */
  const HashName: map<string, Hash> := map[
    "id" := ID,
    "sha1" := SHA1,
    "sha2-256" := SHA2_256,
    "sha2-512" := SHA2_512,
    "sha3-224" := SHA3_224,
    "sha3-256" := SHA3_256,
    "sha3-384" := SHA3_384,
    "sha3-512" := SHA3_512,
    "dbl-sha2-256" := DBL_SHA2_256,
    "murmur3" := MURMUR3,
    "keccak-224" := KECCAK_224,
    "keccak-256" := KECCAK_256,
    "keccak-384" := KECCAK_384,
    "keccak-512" := KECCAK_512,
    "shake-128" := SHAKE_128,
    "shake-256" := SHAKE_256,
    "x11" := X11
  ]

  // The map after each run of the initializer list is inserted.
  ghost const AfterSha2: map<nat, Hash> := map[0x00 := ID, 0x11 := SHA1, 0x12 := SHA2_256, 0x13 := SHA2_512]
  ghost const AfterSha3: map<nat, Hash> := AfterSha2[0x17 := SHA3_224][0x16 := SHA3_256][0x15 := SHA3_384][0x14 := SHA3_512]
  ghost const AfterKeccak: map<nat, Hash> := AfterSha3[0x1A := KECCAK_224][0x1B := KECCAK_256][0x1C := KECCAK_384][0x1D := KECCAK_512]
  ghost const AfterShake: map<nat, Hash> := AfterKeccak[0x18 := SHAKE_128][0x19 := SHAKE_256]
  ghost const AfterBlake2b: map<nat, Hash> := AfterShake[0xb201 := BLAKE2B_MIN][0xb240 := BLAKE2B_MAX]
  ghost const AfterBlake2: map<nat, Hash> := AfterBlake2b[0xb241 := BLAKE2S_MIN][0xb260 := BLAKE2S_MAX]
  ghost const AfterRest: map<nat, Hash> := AfterBlake2[0x56 := DBL_SHA2_256][0x22 := MURMUR3][0x1100 := X11]

  /** Inserting the identity, SHA-1 and SHA-2 entries. */
  lemma InsertRunSha2()
    ensures InsertAll(map[], CodeTable[0..4]) == AfterSha2
  {
    var m: map<nat, Hash>, t := map[], CodeTable[0..4];
    assert t == [(0x00, ID), (0x11, SHA1), (0x12, SHA2_256), (0x13, SHA2_512)];
    InsertFirst(m, t);
    m, t := InsertOne(m, t[0]), t[1..];
    InsertFirst(m, t);
    m, t := InsertOne(m, t[0]), t[1..];
    InsertFirst(m, t);
    m, t := InsertOne(m, t[0]), t[1..];
    InsertFirst(m, t);
    m, t := InsertOne(m, t[0]), t[1..];
  }

  /** Inserting the SHA-3 entries; the second entry for 0x14 is dropped. */
  lemma InsertRunSha3()
    ensures InsertAll(AfterSha2, CodeTable[4..9]) == AfterSha3
  {
    var m: map<nat, Hash>, t := AfterSha2, CodeTable[4..9];
    assert t == [(0x17, SHA3_224), (0x16, SHA3_256), (0x15, SHA3_384), (0x14, SHA3_512), (0x14, SHA3)];
    InsertFirst(m, t);
    m, t := InsertOne(m, t[0]), t[1..];
    InsertFirst(m, t);
    m, t := InsertOne(m, t[0]), t[1..];
    InsertFirst(m, t);
    m, t := InsertOne(m, t[0]), t[1..];
    InsertFirst(m, t);
    m, t := InsertOne(m, t[0]), t[1..];
    InsertFirst(m, t);
    m, t := InsertOne(m, t[0]), t[1..];
  }

  /** Inserting the Keccak entries. */
  lemma InsertRunKeccak()
    ensures InsertAll(AfterSha3, CodeTable[9..13]) == AfterKeccak
  {
    var m: map<nat, Hash>, t := AfterSha3, CodeTable[9..13];
    assert t == [(0x1A, KECCAK_224), (0x1B, KECCAK_256), (0x1C, KECCAK_384), (0x1D, KECCAK_512)];
    InsertFirst(m, t);
    m, t := InsertOne(m, t[0]), t[1..];
    InsertFirst(m, t);
    m, t := InsertOne(m, t[0]), t[1..];
    InsertFirst(m, t);
    m, t := InsertOne(m, t[0]), t[1..];
    InsertFirst(m, t);
    m, t := InsertOne(m, t[0]), t[1..];
  }

  /** Inserting the SHAKE entries. */
  lemma InsertRunShake()
    ensures InsertAll(AfterKeccak, CodeTable[13..15]) == AfterShake
  {
    var m: map<nat, Hash>, t := AfterKeccak, CodeTable[13..15];
    assert t == [(0x18, SHAKE_128), (0x19, SHAKE_256)];
    InsertFirst(m, t);
    m, t := InsertOne(m, t[0]), t[1..];
    InsertFirst(m, t);
    m, t := InsertOne(m, t[0]), t[1..];
  }

  /** Inserting the BLAKE2b range sentinels. */
  lemma InsertRunBlake2b()
    ensures InsertAll(AfterShake, CodeTable[15..17]) == AfterBlake2b
  {
    var m: map<nat, Hash>, t := AfterShake, CodeTable[15..17];
    assert t == [(0xb201, BLAKE2B_MIN), (0xb240, BLAKE2B_MAX)];
    InsertFirst(m, t);
    m, t := InsertOne(m, t[0]), t[1..];
    InsertFirst(m, t);
    m, t := InsertOne(m, t[0]), t[1..];
  }

  /** Inserting the BLAKE2s range sentinels. */
  lemma InsertRunBlake2s()
    ensures InsertAll(AfterBlake2b, CodeTable[17..19]) == AfterBlake2
  {
    var m: map<nat, Hash>, t := AfterBlake2b, CodeTable[17..19];
    assert t == [(0xb241, BLAKE2S_MIN), (0xb260, BLAKE2S_MAX)];
    InsertFirst(m, t);
    m, t := InsertOne(m, t[0]), t[1..];
    InsertFirst(m, t);
    m, t := InsertOne(m, t[0]), t[1..];
  }

  /** Inserting double SHA-256, Murmur3 and X11. */
  lemma InsertRunRest()
    ensures InsertAll(AfterBlake2, CodeTable[19..22]) == AfterRest
  {
    var m: map<nat, Hash>, t := AfterBlake2, CodeTable[19..22];
    assert t == [(0x56, DBL_SHA2_256), (0x22, MURMUR3), (0x1100, X11)];
    InsertFirst(m, t);
    m, t := InsertOne(m, t[0]), t[1..];
    InsertFirst(m, t);
    m, t := InsertOne(m, t[0]), t[1..];
    InsertFirst(m, t);
    m, t := InsertOne(m, t[0]), t[1..];
  }

  /** Inserting a list is inserting a prefix of it and then the rest. */
  lemma {:induction false} InsertAllSplit<K, V>(m: map<K, V>, entries: seq<(K, V)>, n: nat)
    requires n <= |entries|
    ensures InsertAll(m, entries) == InsertAll(InsertAll(m, entries[..n]), entries[n..])
    decreases n
  {
    if n > 0 {
      InsertAllSplit(InsertOne(m, entries[0]), entries[1..], n - 1);
      assert entries[..n][1..] == entries[1..][..n - 1];
      assert entries[1..][n - 1..] == entries[n..];
    }
  }

  /** Inserts `entries[a..]` as the run `entries[a..b]` followed by the rest. */
  lemma InsertAllRuns<K, V>(m: map<K, V>, entries: seq<(K, V)>, a: nat, b: nat)
    requires a <= b <= |entries|
    ensures InsertAll(m, entries[a..]) == InsertAll(InsertAll(m, entries[a..b]), entries[b..])
  {
    InsertAllSplit(m, entries[a..], b - a);
    assert entries[a..][..b - a] == entries[a..b];
    assert entries[a..][b - a..] == entries[b..];
  }

  /** Constructing the std::map from the initializer list gives
      `HashByCode`: 0x14 keeps SHA3_512, the first of its two entries. */
  lemma HashByCodeIsBuiltFromList()
    ensures InsertAll(map[], CodeTable) == HashByCode
  {
    assert CodeTable[0..] == CodeTable;
    InsertAllRuns(map[], CodeTable, 0, 4);
    InsertRunSha2();
    InsertAllRuns(AfterSha2, CodeTable, 4, 9);
    InsertRunSha3();
    InsertAllRuns(AfterSha3, CodeTable, 9, 13);
    InsertRunKeccak();
    InsertAllRuns(AfterKeccak, CodeTable, 13, 15);
    InsertRunShake();
    InsertAllRuns(AfterShake, CodeTable, 15, 17);
    InsertRunBlake2b();
    InsertAllRuns(AfterBlake2b, CodeTable, 17, 19);
    InsertRunBlake2s();
    InsertAllRuns(AfterBlake2, CodeTable, 19, 22);
    InsertRunRest();
    assert CodeTable[22..] == [];
  }

  /** The codes of `hash_by_code`, in three sets of seven. */
  const LowCodes: set<nat> := {0x00, 0x11, 0x12, 0x13, 0x14, 0x15, 0x16}
  const MidCodes: set<nat> := {0x17, 0x18, 0x19, 0x1A, 0x1B, 0x1C, 0x1D}
  const HighCodes: set<nat> := {0x22, 0x56, 0x1100, 0xb201, 0xb240, 0xb241, 0xb260}

  lemma LowCodesSize() ensures |LowCodes| == 7 {}
  lemma MidCodesSize() ensures |MidCodes| == 7 {}
  lemma HighCodesSize() ensures |HighCodes| == 7 {}
  lemma CodeSetsDisjoint() ensures LowCodes !! MidCodes && LowCodes !! HighCodes && MidCodes !! HighCodes {}

  /** The codes `hash_by_code` ends up with. */
  lemma HashByCodeKeys()
    ensures HashByCode.Keys == LowCodes + MidCodes + HighCodes
  {
  }

  /** Every registered code fits in two bytes. */
  lemma RegisteredCodesSmall(code: nat)
    requires code in HashByCode
    ensures code <= 0xb260
  {
    HashByCodeKeys();
    assert code in LowCodes || code in MidCodes || code in HighCodes;
  }

  /** A code above the largest entry is not registered. */
  lemma UnregisteredAboveTable(code: nat)
    requires code > 0xb260
    ensures !IsRegistered(code)
  {
    if code in HashByCode {
      RegisteredCodesSmall(code);
    }
  }

  /** `hash_by_code` has 21 codes: the 22 entries of the list, less the
      second entry for 0x14. */
  lemma HashByCodeSize()
    ensures |CodeTable| == 22 && |HashByCode| == 21
  {
    HashByCodeKeys();
    LowCodesSize();
    MidCodesSize();
    HighCodesSize();
    CodeSetsDisjoint();
    assert |HashByCode| == |HashByCode.Keys|;
  }

  /** The code that identifies `h` in `hash_by_code`; SHA3 has none and
      gets 0x14, the code its list entry carries. */
  function CodeOf(h: Hash): nat
  {
    match h
    case ID => 0x00
    case SHA1 => 0x11
    case SHA2_256 => 0x12
    case SHA2_512 => 0x13
    case SHA3_224 => 0x17
    case SHA3_256 => 0x16
    case SHA3_384 => 0x15
    case SHA3_512 => 0x14
    case SHA3 => 0x14
    case KECCAK_224 => 0x1A
    case KECCAK_256 => 0x1B
    case KECCAK_384 => 0x1C
    case KECCAK_512 => 0x1D
    case SHAKE_128 => 0x18
    case SHAKE_256 => 0x19
    case BLAKE2B_MIN => 0xb201
    case BLAKE2B_MAX => 0xb240
    case BLAKE2S_MIN => 0xb241
    case BLAKE2S_MAX => 0xb260
    case DBL_SHA2_256 => 0x56
    case MURMUR3 => 0x22
    case X11 => 0x1100
  }

  /** `CodeOf` finds, for every function but SHA3, the code that
      identifies it. */
  lemma CodeOfIdentifies(h: Hash)
    requires h != SHA3
    ensures CodeOf(h) in HashByCode && HashByCode[CodeOf(h)] == h
  {
  }

  lemma CodeOfInvertsLow(c: nat)
    requires c in LowCodes
    ensures c in HashByCode && CodeOf(HashByCode[c]) == c
  {
  }

  lemma CodeOfInvertsMid(c: nat)
    requires c in MidCodes
    ensures c in HashByCode && CodeOf(HashByCode[c]) == c
  {
  }

  lemma CodeOfInvertsHigh(c: nat)
    requires c in HighCodes
    ensures c in HashByCode && CodeOf(HashByCode[c]) == c
  {
  }

  /** `CodeOf` gives back the code of every entry of `hash_by_code`. */
  lemma CodeOfInverts(c: nat)
    requires c in HashByCode
    ensures CodeOf(HashByCode[c]) == c
  {
    HashByCodeKeys();
    if c in LowCodes {
      CodeOfInvertsLow(c);
    } else if c in MidCodes {
      CodeOfInvertsMid(c);
    } else {
      CodeOfInvertsHigh(c);
    }
  }

  /** The second entry for 0x14 is lost: 0x14 identifies SHA3_512, and
      every function of the enumeration but SHA3 has a code. */
  lemma Sha3IsShadowed()
    ensures CodeTable[7] == (0x14, SHA3_512) && CodeTable[8] == (0x14, SHA3)
    ensures HashByCode[0x14] == SHA3_512
    ensures forall h: Hash :: h in HashByCode.Values <==> h != SHA3
  {
    assert SHA3 !in HashByCode.Values;
    forall h: Hash | h != SHA3 ensures h in HashByCode.Values {
      CodeOfIdentifies(h);
    }
  }

  /** No two codes identify the same hash function. */
  lemma HashByCodeInjective()
    ensures forall c1, c2 :: c1 in HashByCode && c2 in HashByCode && c1 != c2 ==>
              HashByCode[c1] != HashByCode[c2]
  {
    forall c1, c2 | c1 in HashByCode && c2 in HashByCode && c1 != c2
      ensures HashByCode[c1] != HashByCode[c2]
    {
      CodeOfInverts(c1);
      CodeOfInverts(c2);
    }
  }

  /** Every named function is also identified by a code; the four BLAKE2
      sentinels and SHA3 have no name. */
  lemma NamesAreCodeImages()
    ensures forall n :: n in HashName ==> HashName[n] in HashByCode.Values
    ensures forall n :: n in HashName ==>
              HashName[n] !in {BLAKE2B_MIN, BLAKE2B_MAX, BLAKE2S_MIN, BLAKE2S_MAX, SHA3}
  {
    assert forall n :: n in HashName ==>
      HashName[n] !in {BLAKE2B_MIN, BLAKE2B_MAX, BLAKE2S_MIN, BLAKE2S_MAX, SHA3};
    forall n | n in HashName ensures HashName[n] in HashByCode.Values {
      CodeOfIdentifies(HashName[n]);
    }
  }

  /** A character `hash_name` keys are spelled with: lowercase letters,
      digits and the hyphen. */
  predicate IsNameChar(c: char)
  {
    'a' <= c <= 'z' || '0' <= c <= '9' || c == '-'
  }

  /** The names of `hash_name`, in three groups. */
  ghost const ShaNames: set<string> := {"id", "sha1", "sha2-256", "sha2-512", "sha3-224", "sha3-256", "sha3-384", "sha3-512"}
  ghost const KeccakNames: set<string> := {"keccak-224", "keccak-256", "keccak-384", "keccak-512"}
  ghost const OtherNames: set<string> := {"dbl-sha2-256", "murmur3", "shake-128", "shake-256", "x11"}

  lemma ShaNamesSize() ensures |ShaNames| == 8 {}
  lemma KeccakNamesSize() ensures |KeccakNames| == 4 {}
  lemma OtherNamesSize() ensures |OtherNames| == 5 {}
  lemma NameGroupsDisjoint() ensures ShaNames !! KeccakNames && ShaNames !! OtherNames && KeccakNames !! OtherNames {}
  lemma HashNameGroups() ensures HashName.Keys == ShaNames + KeccakNames + OtherNames {}

  /** `hash_name` has 17 entries. */
  lemma HashNameSize()
    ensures |HashName| == 17
  {
    HashNameGroups();
    ShaNamesSize();
    KeccakNamesSize();
    OtherNamesSize();
    NameGroupsDisjoint();
    assert |HashName| == |HashName.Keys|;
  }

  /** Every `hash_name` key is spelled in lowercase. */
  lemma HashNameKeys()
    ensures forall n, i :: n in HashName && 0 <= i < |n| ==> IsNameChar(n[i])
  {
  }

  /** `validate`, as written: it compares the search result with `end()`,
      so it holds exactly for the codes the table does NOT contain. */
  function Validate(code: nat): (unregistered: bool)
  {
    !(code in HashByCode)
  }

  /** Whether `code` is in `hash_by_code`: the test `decode` makes with
      `find(code) != end()`, and what `validate` evidently means. */
  function IsRegistered(code: nat): (known: bool)
  {
    code in HashByCode
  }

  /** `IsRegistered` agrees with reading the initializer list directly, and
      `Validate` is its negation. */
  lemma {:induction false} RegisteredIffListed(code: nat)
    ensures IsRegistered(code) <==> FirstMatch(CodeTable, code).Some?
    ensures IsRegistered(code) ==> HashByCode[code] == FirstMatch(CodeTable, code).value
    ensures Validate(code) <==> !IsRegistered(code)
  {
    HashByCodeIsBuiltFromList();
    InsertAllIsFirstMatch(map[], CodeTable, code);
  }

  /** `validate` rejects a registered code (SHA-1) and accepts an unknown one. */
  lemma ValidateIsInverted()
    ensures IsRegistered(0x11) && !Validate(0x11)
    ensures !IsRegistered(0x01) && Validate(0x01)
  {
  }
}
