/** The credential hasher the account logic relies on (bcrypt's hashSync
    and compare), reduced to the two facts the rest of the model uses: a
    hash made from a password verifies that password, and verifies no
    other. */
module Credentials {

  /** bcrypt's identifier and work factor, which head every hash it makes. */
  const HashPrefix := "$2b$10$"

  /** bcrypt draws a fresh 22-character salt for every hash. */
  const SaltLength := 22

  type Salt = s: string | |s| == SaltLength witness "......................"

  /** The stand-in for bcrypt's one-way digest: the prefix, the salt, and
      then the protected password. Only Matches looks inside it. */
  function Hash(plain: string, salt: Salt): (h: string)
    ensures Matches(plain, h)
    ensures |h| == |HashPrefix| + SaltLength + |plain|
  {
    HashPrefix + salt + plain
  }

  /** bcrypt.compare(plain, h): h is a well-formed hash of plain. A string
      that is not a hash at all verifies nothing (it fails closed). */
  predicate Matches(plain: string, h: string) {
    && |h| >= |HashPrefix| + SaltLength
    && h[..|HashPrefix|] == HashPrefix
    && h[|HashPrefix| + SaltLength..] == plain
  }

  /** A hash verifies exactly one password: for instance the hash of p
      does not verify p + "x". */
  lemma HashVerifiesOnlyItsPassword(p: string, q: string, salt: Salt)
    ensures Matches(q, Hash(p, salt)) <==> q == p
  {
  }

  /** Hashing the same password twice with different salts gives different
      hashes, and each of them verifies the password. */
  lemma SaltedHashesDiffer(p: string, s1: Salt, s2: Salt)
    requires s1 != s2
    ensures Hash(p, s1) != Hash(p, s2)
    ensures Matches(p, Hash(p, s1)) && Matches(p, Hash(p, s2))
  {
    var h1, h2 := Hash(p, s1), Hash(p, s2);
    assert h1[|HashPrefix|..|HashPrefix| + SaltLength] == s1;
    assert h2[|HashPrefix|..|HashPrefix| + SaltLength] == s2;
  }
}
