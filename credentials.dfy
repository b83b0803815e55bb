/** Salted password hashing: `hash_password_hex` for account records, and the
    raw-digest computation and `memcmp` check of the master-password paths.
    Every path hashes the password's C-string bytes followed by the salt. */
module Credentials {
  import opened Words
  import opened Wrappers
  import opened Memory
  import opened Sha256Spec
  import opened Sha256
  import opened HexCodec

  /** SALT_LEN: salt bytes per master password and per account. */
  const SaltLen: nat := 16

  /** `strlen`: the index of the first NUL, or the whole buffer when there is none. */
  function CStringLength(p: seq<Byte>): (n: nat)
    ensures n <= |p|
    ensures forall i :: 0 <= i < n ==> p[i] != 0
    ensures n < |p| ==> p[n] == 0
  {
    if p == [] || p[0] == 0 then 0 else 1 + CStringLength(p[1..])
  }

  /** The bytes of a C string: everything before its terminator. */
  function CString(p: seq<Byte>): seq<Byte>
  {
    p[..CStringLength(p)]
  }

  /** `strcmp(a, b) == 0`. */
  predicate SameCString(a: seq<Byte>, b: seq<Byte>)
  {
    CString(a) == CString(b)
  }

  /** The hashed input `tmp`: the password bytes first, the salt after them. */
  function SaltedInput(password: seq<Byte>, salt: seq<Byte>): seq<Byte>
  {
    CString(password) + salt
  }

  /** sha256(password ++ salt). */
  function SaltedDigest(password: seq<Byte>, salt: seq<Byte>): (d: seq<Byte>)
    ensures |d| == 32
  {
    DigestLayout(SaltedInput(password, salt));
    Digest(SaltedInput(password, salt))
  }

  /** With a fixed salt length the hashed input determines both the password
      and the salt: no two (password, salt) pairs share an input. */
  lemma SaltedInputInjective(p1: seq<Byte>, s1: seq<Byte>, p2: seq<Byte>, s2: seq<Byte>)
    requires |s1| == |s2|
    requires SaltedInput(p1, s1) == SaltedInput(p2, s2)
    ensures CString(p1) == CString(p2) && s1 == s2
  {
    var x := SaltedInput(p1, s1);
    var n := |CString(p1)|;
    assert |CString(p2)| == n;
    assert CString(p1) == x[..n] == CString(p2);
    assert s1 == x[n..] == s2;
  }

  /** Copies the password's C-string bytes and then the salt into a fresh
      buffer: `memcpy(tmp, password, plen); memcpy(tmp + plen, salt, salt_len)`. */
  method BuildSaltedInput(password: seq<Byte>, salt: seq<Byte>) returns (tmp: array<Byte>)
    ensures fresh(tmp)
    ensures tmp[..] == SaltedInput(password, salt)
  {
    var plen := CStringLength(password);
    tmp := new Byte[plen + |salt|];
    CopyInto(tmp, 0, password[..plen]);
    CopyInto(tmp, plen, salt);
  }

  /** `hash_password_hex(password, salt, salt_len, out_hex65)`: the 64 hex
      digits of sha256(password ++ salt) and a NUL. */
  method HashPasswordHex(password: seq<Byte>, salt: seq<Byte>, outHex65: array<char>)
    requires outHex65.Length == 65
    modifies outHex65
    ensures outHex65[..] == Hex(SaltedDigest(password, salt)) + ['\0']
  {
    var tmp := BuildSaltedInput(password, salt);
    var digest := new Byte[32];
    Sha256.Sha256(tmp[..], digest);
    BytesToHex(digest[..], outHex65);
    assert outHex65[..] == outHex65[..65];
  }

  /** The stored hex digest of an account reads back as the raw salted digest:
      64 lowercase hex digits that decode to sha256(password ++ salt). */
  lemma HexDigestDecodes(password: seq<Byte>, salt: seq<Byte>)
    ensures |Hex(SaltedDigest(password, salt))| == 64
    ensures HexDecode(Hex(SaltedDigest(password, salt))) == Some(SaltedDigest(password, salt))
  {
    HexDecodeHex(SaltedDigest(password, salt));
  }

  /** The raw digest of the master-password paths: sha256 of the password's
      bytes followed by the SALT_LEN salt bytes, into `digest`. */
  method SaltedRawDigest(password: seq<Byte>, salt: seq<Byte>, digest: array<Byte>)
    requires |salt| == SaltLen && digest.Length == 32
    modifies digest
    ensures digest[..] == SaltedDigest(password, salt)
  {
    var tmp := BuildSaltedInput(password, salt);
    Sha256.Sha256(tmp[..], digest);
  }

  /** What the master file holds: the salt and the raw 32-byte digest. */
  datatype MasterRecord = MasterRecord(salt: seq<Byte>, digest: seq<Byte>)

  /** A password opens a record when its salted digest equals the stored one. */
  predicate Opens(rec: MasterRecord, password: seq<Byte>)
  {
    SaltedDigest(password, rec.salt) == rec.digest
  }

  /** The record the set path saves for a password and a salt. */
  function RecordFor(password: seq<Byte>, salt: seq<Byte>): (rec: MasterRecord)
    requires |salt| == SaltLen
    ensures rec.salt == salt && |rec.digest| == 32
    ensures Opens(rec, password)
  {
    MasterRecord(salt, SaltedDigest(password, salt))
  }

  /** The checks and the hashing of `set_master_password_interactive`, on the
      two entered passwords and the generated salt: an empty password and
      two different passwords are refused. */
  method SetMaster(pass1: seq<Byte>, pass2: seq<Byte>, salt: seq<Byte>) returns (r: Option<MasterRecord>)
    requires |salt| == SaltLen
    ensures r.None? <==> CStringLength(pass1) == 0 || !SameCString(pass1, pass2)
    ensures r.Some? ==> r.value == RecordFor(pass1, salt)
  {
    if CStringLength(pass1) == 0 {
      return None;
    }
    if CString(pass1) != CString(pass2) {
      return None;
    }
    var digest := new Byte[32];
    SaltedRawDigest(pass1, salt, digest);
    r := Some(MasterRecord(salt, digest[..]));
  }

  /** The check of `verify_master_interactive` against a loaded record:
      recompute the salted digest and compare all 32 bytes with `memcmp`. */
  method VerifyMaster(rec: MasterRecord, password: seq<Byte>) returns (ok: bool)
    requires |rec.salt| == SaltLen && |rec.digest| == 32
    ensures ok <==> Opens(rec, password)
  {
    var digest := new Byte[32];
    SaltedRawDigest(password, rec.salt, digest);
    ok := SameDigest(digest[..], rec.digest);
  }

  /** `memcmp(digest, stored, 32) == 0` on two 32-byte digests. */
  method SameDigest(a: seq<Byte>, b: seq<Byte>) returns (same: bool)
    requires |a| == 32 && |b| == 32
    ensures same <==> a == b
  {
    var cmp := Memcmp(a, b, 32);
    same := cmp == 0;
    assert a[..32] == a && b[..32] == b;
  }

  /** `change_master_interactive`: the current password must open the stored
      record and the two new passwords must agree; the new password is hashed
      with a fresh salt. An empty new password is not refused on this path. */
  method ChangeMaster(rec: MasterRecord, current: seq<Byte>, new1: seq<Byte>, new2: seq<Byte>,
                      salt: seq<Byte>) returns (r: Option<MasterRecord>)
    requires |rec.salt| == SaltLen && |rec.digest| == 32 && |salt| == SaltLen
    ensures r.None? <==> !Opens(rec, current) || !SameCString(new1, new2)
    ensures r.Some? ==> r.value == RecordFor(new1, salt)
  {
    var ok := VerifyMaster(rec, current);
    if !ok {
      return None;
    }
    if CString(new1) != CString(new2) {
      return None;
    }
    var digest := new Byte[32];
    SaltedRawDigest(new1, salt, digest);
    r := Some(MasterRecord(salt, digest[..]));
  }

  /** The set path and the verify path agree: the password a record was set
      with opens it, and so does any buffer holding the same C string. */
  lemma {:induction false} SetThenVerify(pass1: seq<Byte>, salt: seq<Byte>, entered: seq<Byte>)
    requires |salt| == SaltLen
    requires SameCString(pass1, entered)
    ensures Opens(RecordFor(pass1, salt), entered)
  {
    assert SaltedInput(entered, salt) == SaltedInput(pass1, salt);
  }

  /** Bytes after the terminator are never hashed. */
  lemma {:induction false} CStringLengthOfTerminated(s: seq<Byte>, rest: seq<Byte>)
    requires forall i :: 0 <= i < |s| ==> s[i] != 0
    ensures CStringLength(s + [0] + rest) == |s|
    ensures CString(s + [0] + rest) == s
  {
    var p := s + [0] + rest;
    if s != [] {
      assert p[1..] == s[1..] + [0] + rest;
      CStringLengthOfTerminated(s[1..], rest);
    }
  }
}
