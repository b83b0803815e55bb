/** The Secure Hash Standard (FIPS 180-4) SHA-256 as pure functions: the
    logical functions of section 4.1.2, the constants of sections 4.2.2 and
    5.3.3, the padding of section 5.1.1 and the hash computation of section
    6.2.2, stated as pad, then schedule, then compression, then a fold over
    the blocks. The imperative digest of passman.c is proved against it. */
module Sha256Spec {
  import opened Words

  /** The 64 round constants K0..K63 (section 4.2.2). */
  const K: seq<Word> := [
    0x428a2f98, 0x71374491, 0xb5c0fbcf, 0xe9b5dba5, 0x3956c25b, 0x59f111f1, 0x923f82a4, 0xab1c5ed5,
    0xd807aa98, 0x12835b01, 0x243185be, 0x550c7dc3, 0x72be5d74, 0x80deb1fe, 0x9bdc06a7, 0xc19bf174,
    0xe49b69c1, 0xefbe4786, 0x0fc19dc6, 0x240ca1cc, 0x2de92c6f, 0x4a7484aa, 0x5cb0a9dc, 0x76f988da,
    0x983e5152, 0xa831c66d, 0xb00327c8, 0xbf597fc7, 0xc6e00bf3, 0xd5a79147, 0x06ca6351, 0x14292967,
    0x27b70a85, 0x2e1b2138, 0x4d2c6dfc, 0x53380d13, 0x650a7354, 0x766a0abb, 0x81c2c92e, 0x92722c85,
    0xa2bfe8a1, 0xa81a664b, 0xc24b8b70, 0xc76c51a3, 0xd192e819, 0xd6990624, 0xf40e3585, 0x106aa070,
    0x19a4c116, 0x1e376c08, 0x2748774c, 0x34b0bcb5, 0x391c0cb3, 0x4ed8aa4a, 0x5b9cca4f, 0x682e6ff3,
    0x748f82ee, 0x78a5636f, 0x84c87814, 0x8cc70208, 0x90befffa, 0xa4506ceb, 0xbef9a3f7, 0xc67178f2
  ]

  /** Eight 32-bit words: the hash value H0..H7, or the working variables a..h. */
  datatype Vars = Vars(a: Word, b: Word, c: Word, d: Word, e: Word, f: Word, g: Word, h: Word)

  /** The initial hash value H(0) (section 5.3.3). */
  const IV: Vars := Vars(0x6a09e667, 0xbb67ae85, 0x3c6ef372, 0xa54ff53a,
                         0x510e527f, 0x9b05688c, 0x1f83d9ab, 0x5be0cd19)

  /** The words of a state in order, H0 first. */
  function VarsWords(v: Vars): seq<Word>
  {
    [v.a, v.b, v.c, v.d, v.e, v.f, v.g, v.h]
  }

  // ---------------------------------------------------------------------
  // Section 4.1.2: logical functions (passman.c's rotr, ch, maj, sigmas)
  // ---------------------------------------------------------------------

  /** passman.c's `rotr`: `(x >> n) | (x << (32-n))`, the formula section
      2.2.2 gives for ROTR^n. The source calls it only with 0 < n < 32
      (n = 32 would be an undefined shift in C). */
  function RotR(x: Word, n: nat): Word
    requires 0 < n < 32
  {
    (x >> n) | (x << (32 - n))
  }

  /** For every amount the source passes (2, 6, 7, 11, 13, 17, 18, 19, 22
      and 25), `rotr` is the circular right rotation. */
  lemma RotRIsRotation(x: Word)
    ensures RotR(x, 2) == x.RotateRight(2) && RotR(x, 13) == x.RotateRight(13)
    ensures RotR(x, 22) == x.RotateRight(22)
    ensures RotR(x, 6) == x.RotateRight(6) && RotR(x, 11) == x.RotateRight(11)
    ensures RotR(x, 25) == x.RotateRight(25)
    ensures RotR(x, 7) == x.RotateRight(7) && RotR(x, 18) == x.RotateRight(18)
    ensures RotR(x, 17) == x.RotateRight(17) && RotR(x, 19) == x.RotateRight(19)
  {
  }

  /** Ch: each bit of the result is the bit of y where x is 1 and the bit
      of z where x is 0. */
  function Ch(x: Word, y: Word, z: Word): (r: Word)
    ensures r & x == y & x
    ensures r & !x == z & !x
  {
    (x & y) ^ (!x & z)
  }

  /** Maj: each bit of the result is the majority of the three input bits. */
  function Maj(x: Word, y: Word, z: Word): (r: Word)
    ensures r == (x & y) | (x & z) | (y & z)
  {
    (x & y) ^ (x & z) ^ (y & z)
  }

  /** Σ0 of section 4.1.2 (passman.c's big_sigma0). */
  function BigSigma0(x: Word): Word
  {
    RotR(x, 2) ^ RotR(x, 13) ^ RotR(x, 22)
  }

  /** Σ1 of section 4.1.2 (passman.c's big_sigma1). */
  function BigSigma1(x: Word): Word
  {
    RotR(x, 6) ^ RotR(x, 11) ^ RotR(x, 25)
  }

  /** σ0 of section 4.1.2 (passman.c's small_sigma0). */
  function SmallSigma0(x: Word): Word
  {
    RotR(x, 7) ^ RotR(x, 18) ^ (x >> 3)
  }

  /** σ1 of section 4.1.2 (passman.c's small_sigma1). */
  function SmallSigma1(x: Word): Word
  {
    RotR(x, 17) ^ RotR(x, 19) ^ (x >> 10)
  }

  // ---------------------------------------------------------------------
  // Section 5.1.1: padding
  // ---------------------------------------------------------------------

  /** 2^64: the C length field is a u64, so msglen * 8 wraps modulo 2^64. */
  const TwoTo64: nat := 0x1_0000_0000_0000_0000

  /** The message length in bits as the u64 `msglen * 8ULL`. */
  function BitLength(msgLen: nat): Word64
  {
    ((msgLen * 8) % TwoTo64) as Word64
  }

  /** `newlen`: where the length field starts, i.e. the least length
      >= msgLen + 1 that is 56 modulo 64. */
  function PaddedLength(msgLen: nat): (newlen: nat)
    ensures newlen % 64 == 56
    ensures msgLen + 1 <= newlen <= msgLen + 64
    ensures (newlen + 8) % 64 == 0
  {
    msgLen + 1 + (55 - msgLen) % 64
  }

  /** No smaller length than PaddedLength after the 0x80 byte is 56 modulo 64. */
  lemma PaddedLengthIsLeast(msgLen: nat, m: nat)
    requires msgLen + 1 <= m && m % 64 == 56
    ensures PaddedLength(msgLen) <= m
  {
  }

  function Zeros(n: nat): (r: seq<Byte>)
    ensures |r| == n && forall i :: 0 <= i < n ==> r[i] == 0
  {
    if n == 0 then [] else Zeros(n - 1) + [0]
  }

  /** The padded message M: the message, the byte 0x80, zero bytes up to
      PaddedLength, then the bit length as a big-endian u64. */
  function Pad(msg: seq<Byte>): (p: seq<Byte>)
    ensures |p| == PaddedLength(|msg|) + 8
    ensures |p| % 64 == 0
  {
    var newlen := PaddedLength(|msg|);
    msg + [0x80] + Zeros(newlen - |msg| - 1) + BeBytes64(BitLength(|msg|))
  }

  /** The layout of the padded message byte by byte, with the length field
      reading back as the message's bit length. */
  lemma PadLayout(msg: seq<Byte>)
    ensures var p, n, newlen := Pad(msg), |msg|, PaddedLength(|msg|);
      && p[..n] == msg
      && p[n] == 0x80
      && (forall i :: n < i < newlen ==> p[i] == 0)
      && p[newlen..] == BeBytes64(BitLength(n))
      && BeValue64(p[newlen..]) == BitLength(n)
  {
    var p, n, newlen := Pad(msg), |msg|, PaddedLength(|msg|);
    var z := Zeros(newlen - n - 1);
    assert p == msg + [0x80] + z + BeBytes64(BitLength(n));
    assert p[..n] == msg;
    assert p[newlen..] == BeBytes64(BitLength(n));
    forall i | n < i < newlen
      ensures p[i] == 0
    {
      assert p[i] == z[i - n - 1];
    }
    BeValueOfBeBytes64(BitLength(n));
  }

  // ---------------------------------------------------------------------
  // Section 6.2.2: message schedule, rounds, compression, fold
  // ---------------------------------------------------------------------

  /** Word t (0 <= t < 16) of a 64-byte block: its bytes 4t..4t+3 read big-endian. */
  function BlockWord(block: seq<Byte>, t: nat): Word
    requires |block| == 64 && t < 16
  {
    BeWord(block[4 * t], block[4 * t + 1], block[4 * t + 2], block[4 * t + 3])
  }

  /** Block word t is read from bytes 4t..4t+3 of the block, most significant first. */
  lemma BlockWordBytes(block: seq<Byte>, t: nat)
    requires |block| == 64 && t < 16
    ensures WordBytes(BlockWord(block, t)) == block[4 * t .. 4 * t + 4]
  {
    WordBytesOfBeWord(block[4 * t], block[4 * t + 1], block[4 * t + 2], block[4 * t + 3]);
  }

  /** σ1(W(t-2)) + W(t-7) + σ0(W(t-15)) + W(t-16) modulo 2^32. */
  function ScheduleMix(w2: Word, w7: Word, w15: Word, w16: Word): Word
  {
    SmallSigma1(w2) + w7 + SmallSigma0(w15) + w16
  }

  /** Schedule word t >= 16 from the earlier words w (step 1 of section 6.2.2). */
  function NextScheduleWord(w: seq<Word>, t: nat): Word
    requires 16 <= t <= |w|
  {
    ScheduleMix(w[t - 2], w[t - 7], w[t - 15], w[t - 16])
  }

  lemma PrefixAt<T>(prev: seq<T>, w: seq<T>, i: nat)
    requires |prev| <= |w| && prev == w[..|prev|] && i < |prev|
    ensures w[i] == prev[i]
  {
  }

  /** Extending the words computed so far does not change a later word's recurrence. */
  lemma NextScheduleWordOfPrefix(prev: seq<Word>, w: seq<Word>, t: nat)
    requires |prev| <= |w| && prev == w[..|prev|] && 16 <= t <= |prev|
    ensures NextScheduleWord(w, t) == NextScheduleWord(prev, t)
  {
    PrefixAt(prev, w, t - 2); PrefixAt(prev, w, t - 7);
    PrefixAt(prev, w, t - 15); PrefixAt(prev, w, t - 16);
  }

  /** W0..W(n-1) of the message schedule of a block (step 1 of section 6.2.2):
      the first sixteen words are the block's big-endian words, each later
      word follows from four earlier ones. */
  function Schedule(block: seq<Byte>, n: nat): (w: seq<Word>)
    requires |block| == 64 && n <= 64
    ensures |w| == n
    ensures forall t :: 0 <= t < n && t < 16 ==> w[t] == BlockWord(block, t)
    ensures forall t {:trigger NextScheduleWord(w, t)} :: 16 <= t < n ==> w[t] == NextScheduleWord(w, t)
  {
    if n == 0 then []
    else
      var prev := Schedule(block, n - 1);
      var t := n - 1;
      var w := prev + [if t < 16 then BlockWord(block, t) else NextScheduleWord(prev, t)];
      assert forall u {:trigger NextScheduleWord(w, u)} :: 16 <= u < n ==>
        NextScheduleWord(w, u) == NextScheduleWord(prev, u) by {
        forall u | 16 <= u < n
          ensures NextScheduleWord(w, u) == NextScheduleWord(prev, u)
        {
          NextScheduleWordOfPrefix(prev, w, u);
        }
      }
      w
  }

  /** T1 of step 3 of section 6.2.2: h + Σ1(e) + Ch(e, f, g) + Kt + Wt. */
  function Temp1(e: Word, f: Word, g: Word, h: Word, k: Word, w: Word): Word
  {
    h + BigSigma1(e) + Ch(e, f, g) + k + w
  }

  /** T2 of step 3 of section 6.2.2: Σ0(a) + Maj(a, b, c). */
  function Temp2(a: Word, b: Word, c: Word): Word
  {
    BigSigma0(a) + Maj(a, b, c)
  }

  /** One round (step 3 of section 6.2.2) with constant k and schedule word w:
      the working variables move down one place, e gains T1 and a becomes T1 + T2. */
  function Round(v: Vars, k: Word, w: Word): Vars
  {
    var t1 := Temp1(v.e, v.f, v.g, v.h, k, w);
    var t2 := Temp2(v.a, v.b, v.c);
    Vars(Add(t1, t2), v.a, v.b, v.c, Add(v.d, t1), v.e, v.f, v.g)
  }

  /** The working variables after the first t rounds, starting from v. */
  function Rounds(v: Vars, w: seq<Word>, t: nat): Vars
    requires t <= 64 && t <= |w|
  {
    if t == 0 then v else Round(Rounds(v, w, t - 1), K[t - 1], w[t - 1])
  }

  /** Word-wise addition modulo 2^32 (step 4 of section 6.2.2). */
  function AddVars(x: Vars, y: Vars): Vars
  {
    Vars(Add(x.a, y.a), Add(x.b, y.b), Add(x.c, y.c), Add(x.d, y.d),
         Add(x.e, y.e), Add(x.f, y.f), Add(x.g, y.g), Add(x.h, y.h))
  }

  /** The compression of one 64-byte block into the hash value h. */
  function Compress(h: Vars, block: seq<Byte>): Vars
    requires |block| == 64
  {
    AddVars(h, Rounds(h, Schedule(block, 64), 64))
  }

  /** Block i (bytes 64i..64i+63) of the padded message. */
  function Block(p: seq<Byte>, i: nat): (block: seq<Byte>)
    requires 64 * i + 64 <= |p|
    ensures |block| == 64
  {
    p[64 * i .. 64 * i + 64]
  }

  /** The hash value after the first n blocks of the padded message p. */
  function HashBlocks(h: Vars, p: seq<Byte>, n: nat): Vars
    requires 64 * n <= |p|
  {
    if n == 0 then h else Compress(HashBlocks(h, p, n - 1), Block(p, n - 1))
  }

  /** The final hash value H(N) of a message. */
  function FinalHash(msg: seq<Byte>): Vars
  {
    var p := Pad(msg);
    HashBlocks(IV, p, |p| / 64)
  }

  /** The SHA-256 digest: H0..H7 of the final hash value, big-endian. */
  function Digest(msg: seq<Byte>): seq<Byte>
  {
    SerializeWords(VarsWords(FinalHash(msg)))
  }

  /** The digest is exactly 32 bytes; bytes 4i..4i+3 are Hi big-endian, and
      the eight words can be read back from it. */
  lemma DigestLayout(msg: seq<Byte>)
    ensures |Digest(msg)| == 32
    ensures forall i :: 0 <= i < 8 ==>
      Digest(msg)[4 * i .. 4 * i + 4] == WordBytes(VarsWords(FinalHash(msg))[i])
    ensures DeserializeWords(Digest(msg)) == VarsWords(FinalHash(msg))
  {
    var ws := VarsWords(FinalHash(msg));
    forall i | 0 <= i < 8
      ensures Digest(msg)[4 * i .. 4 * i + 4] == WordBytes(ws[i])
    {
      SerializeWordsAt(ws, i);
    }
    DeserializeSerialize(ws);
  }
}
