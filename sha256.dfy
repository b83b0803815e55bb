/** passman.c's `sha256`, step by step as the C code runs it: the `newlen`
    search, the `calloc`'d padding buffer, the `w[64]` schedule, the 64 rounds
    over the working variables `a..hh`, the `h0..h7 +=` accumulation and the
    big-endian output loop. Each step is proved against Sha256Spec. */
module Sha256 {
  import opened Words
  import opened Sha256Spec
  import opened Memory

  /** `newlen = msglen + 1; while (newlen % 64 != 56) newlen++;` */
  method ComputePaddedLength(msgLen: nat) returns (newlen: nat)
    ensures newlen % 64 == 56
    ensures msgLen + 1 <= newlen <= msgLen + 64
    ensures newlen == PaddedLength(msgLen)
  {
    newlen := msgLen + 1;
    while newlen % 64 != 56
      invariant msgLen + 1 <= newlen <= PaddedLength(msgLen)
      decreases PaddedLength(msgLen) - newlen
    {
      newlen := newlen + 1;
    }
  }

  /** The padded buffer: `calloc(newlen + 8, 1)`, the message copied in,
      the 0x80 byte, and the bit length written big-endian at `newlen`. */
  method PadMessage(msg: seq<Byte>) returns (buf: array<Byte>, newlen: nat)
    ensures fresh(buf)
    ensures newlen == PaddedLength(|msg|)
    ensures buf[..] == Pad(msg)
  {
    var bitlen := BitLength(|msg|);
    newlen := ComputePaddedLength(|msg|);
    buf := new Byte[newlen + 8](_ => 0);
    CopyInto(buf, 0, msg);
    buf[|msg|] := 0x80;
    ghost var head := msg + [0x80] + Zeros(newlen - |msg| - 1);
    assert buf[..newlen] == head by {
      forall i | 0 <= i < newlen
        ensures buf[i] == head[i]
      {
        if i > |msg| {
          assert buf[i] == 0;
        }
      }
    }
    WriteLengthField(buf, newlen, bitlen);
    assert buf[..] == head + BeBytes64(bitlen);
  }

  /** `for (i = 0; i < 8; i++) buf[newlen + i] = (u8)(bitlen >> (56 - 8*i));` */
  method WriteLengthField(buf: array<Byte>, newlen: nat, bitlen: Word64)
    requires newlen + 8 == buf.Length
    modifies buf
    ensures buf[..] == old(buf[..newlen]) + BeBytes64(bitlen)
  {
    var lenBytes := BeBytes64(bitlen);
    for i := 0 to 8
      invariant buf[..newlen] == old(buf[..newlen])
      invariant buf[newlen..newlen + i] == lenBytes[..i]
    {
      buf[newlen + i] := lenBytes[i];
      assert buf[newlen..newlen + i + 1] == buf[newlen..newlen + i] + [lenBytes[i]];
    }
    assert buf[..] == buf[..newlen] + buf[newlen..newlen + 8];
  }

  /** The message schedule `w[0..63]` of the 64-byte chunk at `off`. */
  method FillSchedule(buf: array<Byte>, off: nat, w: array<Word>, ghost block: seq<Byte>)
    requires off + 64 <= buf.Length && w.Length == 64 && block == buf[off .. off + 64]
    modifies w
    ensures w[..] == Schedule(block, 64)
  {
    LoadBlockWords(buf, off, w, block);
    ExtendSchedule(w, block);
  }

  /** The first loop of the schedule: `w[t]` is the big-endian word at
      bytes 4t..4t+3 of the chunk, for t < 16. */
  method LoadBlockWords(buf: array<Byte>, off: nat, w: array<Word>, ghost block: seq<Byte>)
    requires off + 64 <= buf.Length && w.Length == 64 && block == buf[off .. off + 64]
    modifies w
    ensures w[..16] == Schedule(block, 64)[..16]
  {
    ghost var sched := Schedule(block, 64);
    for t := 0 to 16
      invariant forall j :: 0 <= j < t ==> w[j] == sched[j]
    {
      var b0, b1, b2, b3 := buf[off + t * 4], buf[off + t * 4 + 1], buf[off + t * 4 + 2], buf[off + t * 4 + 3];
      BlockWordOfBytes(block, t, b0, b1, b2, b3);
      w[t] := BeWord(b0, b1, b2, b3);
    }
  }

  lemma BlockWordOfBytes(block: seq<Byte>, t: nat, b0: Byte, b1: Byte, b2: Byte, b3: Byte)
    requires |block| == 64 && t < 16
    requires block[4 * t] == b0 && block[4 * t + 1] == b1 && block[4 * t + 2] == b2 && block[4 * t + 3] == b3
    ensures Schedule(block, 64)[t] == BeWord(b0, b1, b2, b3)
  {
  }

  /** The second loop of the schedule: each later word from four earlier ones. */
  method ExtendSchedule(w: array<Word>, ghost block: seq<Byte>)
    requires w.Length == 64 && |block| == 64 && w[..16] == Schedule(block, 64)[..16]
    modifies w
    ensures w[..] == Schedule(block, 64)
  {
    ghost var sched := Schedule(block, 64);
    assert forall j :: 0 <= j < 16 ==> w[j] == w[..16][j];
    for t := 16 to 64
      invariant forall j :: 0 <= j < t ==> w[j] == sched[j]
    {
      w[t] := ScheduleMix(w[t - 2], w[t - 7], w[t - 15], w[t - 16]);
      assert sched[t] == NextScheduleWord(sched, t);
    }
    assert w[..] == sched;
  }

  /** The 64 rounds over the working variables `a..hh`, starting from the
      hash value h0..h7. */
  method RunRounds(h0: Word, h1: Word, h2: Word, h3: Word, h4: Word, h5: Word, h6: Word, h7: Word,
                   w: array<Word>)
    returns (a: Word, b: Word, c: Word, d: Word, e: Word, f: Word, g: Word, hh: Word)
    requires w.Length == 64
    ensures Vars(a, b, c, d, e, f, g, hh) == Rounds(Vars(h0, h1, h2, h3, h4, h5, h6, h7), w[..], 64)
  {
    ghost var h := Vars(h0, h1, h2, h3, h4, h5, h6, h7);
    a, b, c, d, e, f, g, hh := h0, h1, h2, h3, h4, h5, h6, h7;
    for t := 0 to 64
      invariant Vars(a, b, c, d, e, f, g, hh) == Rounds(h, w[..], t)
    {
      RoundsStep(h, w[..], t);
      var T1 := Temp1(e, f, g, hh, K[t], w[t]);
      var T2 := Temp2(a, b, c);
      RoundShifts(a, b, c, d, e, f, g, hh, K[t], w[t], T1, T2);
      hh := g; g := f; f := e; e := Add(d, T1); d := c; c := b; b := a; a := Add(T1, T2);
    }
  }

  lemma RoundsStep(h: Vars, ws: seq<Word>, t: nat)
    requires t < 64 && t < |ws|
    ensures Rounds(h, ws, t + 1) == Round(Rounds(h, ws, t), K[t], ws[t])
  {
  }

  lemma RoundShifts(a: Word, b: Word, c: Word, d: Word, e: Word, f: Word, g: Word, h: Word,
                    k: Word, w: Word, t1: Word, t2: Word)
    requires t1 == Temp1(e, f, g, h, k, w) && t2 == Temp2(a, b, c)
    ensures Round(Vars(a, b, c, d, e, f, g, h), k, w) == Vars(Add(t1, t2), a, b, c, Add(d, t1), e, f, g)
  {
  }

  /** Compressing one block is adding its rounds' result into the hash value. */
  lemma CompressWords(h0: Word, h1: Word, h2: Word, h3: Word, h4: Word, h5: Word, h6: Word, h7: Word,
                      a: Word, b: Word, c: Word, d: Word, e: Word, f: Word, g: Word, hh: Word,
                      block: seq<Byte>)
    requires |block| == 64
    requires Vars(a, b, c, d, e, f, g, hh) == Rounds(Vars(h0, h1, h2, h3, h4, h5, h6, h7), Schedule(block, 64), 64)
    ensures Compress(Vars(h0, h1, h2, h3, h4, h5, h6, h7), block)
         == Vars(Add(h0, a), Add(h1, b), Add(h2, c), Add(h3, d), Add(h4, e), Add(h5, f), Add(h6, g), Add(h7, hh))
  {
  }

  lemma HashBlocksStep(h: Vars, p: seq<Byte>, i: nat)
    requires 64 * (i + 1) <= |p|
    ensures HashBlocks(h, p, i + 1) == Compress(HashBlocks(h, p, i), Block(p, i))
  {
  }

  lemma ChunkCount(len: nat)
    requires len % 64 == 0
    ensures 64 * (len / 64) == len
  {
  }

  lemma FinalHashIs(msg: seq<Byte>, p: seq<Byte>, n: nat)
    requires p == Pad(msg) && 64 * n == |p|
    ensures FinalHash(msg) == HashBlocks(IV, p, n)
  {
    DivExact(n);
  }

  lemma DivExact(n: nat)
    ensures (64 * n) / 64 == n
  {
  }

  lemma SerializeWordsStep(ws: seq<Word>, i: nat)
    requires i < |ws|
    ensures SerializeWords(ws[..i + 1]) == SerializeWords(ws[..i]) + WordBytes(ws[i])
  {
    assert ws[..i + 1][..i] == ws[..i];
  }

  /** The four output bytes of one hash word:
      `out32[off..off+3] = (u8)(x >> 24), (u8)(x >> 16), (u8)(x >> 8), (u8)(x >> 0)`. */
  method StoreWord(out32: array<Byte>, off: nat, x: Word)
    requires off + 4 <= out32.Length
    modifies out32
    ensures out32[..] == old(out32[..off]) + WordBytes(x) + old(out32[off + 4..])
  {
    var b0, b1, b2, b3 := Lo8(x >> 24), Lo8(x >> 16), Lo8(x >> 8), Lo8(x);
    out32[off] := b0;
    out32[off + 1] := b1;
    out32[off + 2] := b2;
    out32[off + 3] := b3;
    assert out32[..] == out32[..off] + [b0, b1, b2, b3] + out32[off + 4..];
  }

  /** One iteration of the block loop of `sha256`: schedule, rounds and the
      addition of the working variables into the hash value, which takes the
      hash value of the first i blocks to that of the first i + 1. */
  method CompressBlock(h0: Word, h1: Word, h2: Word, h3: Word, h4: Word, h5: Word, h6: Word, h7: Word,
                       buf: array<Byte>, i: nat, ghost p: seq<Byte>)
    returns (n0: Word, n1: Word, n2: Word, n3: Word, n4: Word, n5: Word, n6: Word, n7: Word)
    requires p == buf[..] && 64 * i + 64 <= buf.Length
    requires Vars(h0, h1, h2, h3, h4, h5, h6, h7) == HashBlocks(IV, p, i)
    ensures Vars(n0, n1, n2, n3, n4, n5, n6, n7) == HashBlocks(IV, p, i + 1)
  {
    ghost var block := p[64 * i .. 64 * i + 64];
    var w := new Word[64];
    FillSchedule(buf, 64 * i, w, block);
    ghost var ws := w[..];
    var a, b, c, d, e, f, g, hh := RunRounds(h0, h1, h2, h3, h4, h5, h6, h7, w);
    assert w[..] == ws;
    NextHash(h0, h1, h2, h3, h4, h5, h6, h7, a, b, c, d, e, f, g, hh, p, i, ws);
    n0, n1, n2, n3 := Add(h0, a), Add(h1, b), Add(h2, c), Add(h3, d);
    n4, n5, n6, n7 := Add(h4, e), Add(h5, f), Add(h6, g), Add(h7, hh);
  }

  /** Adding the words after the 64 rounds of block i into the hash value of
      the first i blocks gives the hash value of the first i + 1. */
  lemma NextHash(h0: Word, h1: Word, h2: Word, h3: Word, h4: Word, h5: Word, h6: Word, h7: Word,
                 a: Word, b: Word, c: Word, d: Word, e: Word, f: Word, g: Word, hh: Word,
                 p: seq<Byte>, i: nat, ws: seq<Word>)
    requires 64 * i + 64 <= |p|
    requires Vars(h0, h1, h2, h3, h4, h5, h6, h7) == HashBlocks(IV, p, i)
    requires ws == Schedule(p[64 * i .. 64 * i + 64], 64)
    requires Vars(a, b, c, d, e, f, g, hh) == Rounds(Vars(h0, h1, h2, h3, h4, h5, h6, h7), ws, 64)
    ensures Vars(Add(h0, a), Add(h1, b), Add(h2, c), Add(h3, d), Add(h4, e), Add(h5, f), Add(h6, g), Add(h7, hh))
         == HashBlocks(IV, p, i + 1)
  {
    CompressWords(h0, h1, h2, h3, h4, h5, h6, h7, a, b, c, d, e, f, g, hh, Block(p, i));
    HashBlocksStep(IV, p, i);
  }

  /** The block loop of `sha256`: the hash value after the first n blocks of buf. */
  method CompressBlocks(buf: array<Byte>, n: nat)
    returns (h0: Word, h1: Word, h2: Word, h3: Word, h4: Word, h5: Word, h6: Word, h7: Word)
    requires 64 * n <= buf.Length
    ensures Vars(h0, h1, h2, h3, h4, h5, h6, h7) == HashBlocks(IV, buf[..], n)
  {
    h0, h1, h2, h3 := 0x6a09e667, 0xbb67ae85, 0x3c6ef372, 0xa54ff53a;
    h4, h5, h6, h7 := 0x510e527f, 0x9b05688c, 0x1f83d9ab, 0x5be0cd19;
    ghost var p := buf[..];
    for i := 0 to n
      invariant Vars(h0, h1, h2, h3, h4, h5, h6, h7) == HashBlocks(IV, p, i)
    {
      h0, h1, h2, h3, h4, h5, h6, h7 := CompressBlock(h0, h1, h2, h3, h4, h5, h6, h7, buf, i, p);
    }
  }

  /** The output loop of `sha256`: the eight hash words, big-endian, into out32. */
  method StoreDigest(H: seq<Word>, out32: array<Byte>)
    requires |H| == 8 && out32.Length == 32
    modifies out32
    ensures out32[..] == SerializeWords(H)
  {
    for i := 0 to 8
      invariant out32[..4 * i] == SerializeWords(H[..i])
    {
      StoreWord(out32, i * 4, H[i]);
      SerializeWordsStep(H, i);
    }
    assert H[..8] == H;
    assert out32[..] == out32[..32];
  }

  /** `sha256(msg, msglen, out32)`: writes the SHA-256 digest of msg. */
  method Sha256(msg: seq<Byte>, out32: array<Byte>)
    requires out32.Length == 32
    modifies out32
    ensures out32[..] == Digest(msg)
  {
    var buf, newlen := PadMessage(msg);
    var chunks := (newlen + 8) / 64;
    ChunkCount(newlen + 8);
    var h0, h1, h2, h3, h4, h5, h6, h7 := CompressBlocks(buf, chunks);
    FinalHashIs(msg, buf[..], chunks);
    var H := [h0, h1, h2, h3, h4, h5, h6, h7];
    assert H == VarsWords(Vars(h0, h1, h2, h3, h4, h5, h6, h7));
    StoreDigest(H, out32);
  }
}
