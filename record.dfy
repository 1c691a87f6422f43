/** The `Multihash` class of the header: a decoded hash function, its code,
    the declared digest length and the digest bytes. */
module Record {
  import opened Defs
  import opened Registry

  /** A `Multihash` value. Its getters `size`, `getCode`, `getHash` and
      `getDigest` are the fields `length`, `code`, `hash` and `digest`. */
  datatype Multihash = Multihash(hash: Hash, code: nat, length: nat, digest: seq<byte>)

  /** What the default constructor builds: the identity function, code 0,
      no digest. */
  const Default: Multihash := Multihash(ID, 0, 0, [])

  /** The constructor from a code, a length and a digest: the hash function
      is looked up with `hash_by_code.at(code)`, which throws for a code the
      table does not hold; `None` stands for that exception. */
  function NewMultihash(code: nat, length: nat, digest: seq<byte>): (m: Option<Multihash>)
    ensures m.Some? <==> IsRegistered(code)
    ensures m.Some? ==>
              m.value.code == code && m.value.length == length && m.value.digest == digest &&
              m.value.hash in HashByCode.Values && HashByCode[code] == m.value.hash
  {
    if code in HashByCode then Some(Multihash(HashByCode[code], code, length, digest)) else None
  }

  /** The hash function the constructor picks is the first entry for the
      code in the initializer list, it is never SHA3, and the code can be
      recovered from it. */
  lemma NewMultihashFollowsList(code: nat, length: nat, digest: seq<byte>)
    requires NewMultihash(code, length, digest).Some?
    ensures FirstMatch(CodeTable, code) == Some(NewMultihash(code, length, digest).value.hash)
    ensures NewMultihash(code, length, digest).value.hash != SHA3
    ensures CodeOf(NewMultihash(code, length, digest).value.hash) == code
  {
    RegisteredIffListed(code);
    Sha3IsShadowed();
    CodeOfInverts(code);
  }

  /** The default value is consistent with the registry: code 0 is the
      identity function. */
  lemma DefaultIsRegistered()
    ensures IsRegistered(Default.code) && HashByCode[Default.code] == Default.hash
    ensures Default.length == |Default.digest| == 0
  {
  }
}
