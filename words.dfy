/** Fixed-width machine values of passman.c (u8, u32, u64) and the
    big-endian conversions between bytes and words that the digest uses
    for input word assembly, for the length field and for its output. */
module Words {

  /** u8 */
  type Byte = bv8
  /** u32: bit-vector addition wraps modulo 2^32 like C's unsigned addition. */
  type Word = bv32
  /** u64 */
  type Word64 = bv64

  /** u32 addition: wraps modulo 2^32. */
  function Add(x: Word, y: Word): Word
  {
    x + y
  }

  /** C's `(u8)` cast of a u32: keep the low eight bits. */
  function Lo8(x: Word): Byte
  {
    (x & 0xFF) as Byte
  }

  /** C's `(u8)` cast of a u64: keep the low eight bits. */
  function Lo8Of64(x: Word64): Byte
  {
    (x & 0xFF) as Byte
  }

  /** The four bytes of `w`, most significant first. */
  function WordBytes(w: Word): (r: seq<Byte>)
    ensures |r| == 4
  {
    [Lo8(w >> 24), Lo8(w >> 16), Lo8(w >> 8), Lo8(w)]
  }

  /** Assembles a word from four bytes, the first the most significant. */
  function BeWord(b0: Byte, b1: Byte, b2: Byte, b3: Byte): Word
  {
    ((b0 as Word) << 24) | ((b1 as Word) << 16) | ((b2 as Word) << 8) | (b3 as Word)
  }

  /** Assembling four bytes into a word and serialising it gives the bytes back. */
  lemma WordBytesOfBeWord(b0: Byte, b1: Byte, b2: Byte, b3: Byte)
    ensures WordBytes(BeWord(b0, b1, b2, b3)) == [b0, b1, b2, b3]
  {
  }

  /** Serialising a word and assembling it again gives the word back. */
  lemma BeWordOfWordBytes(w: Word)
    ensures var s := WordBytes(w); BeWord(s[0], s[1], s[2], s[3]) == w
  {
  }

  /** The concatenated big-endian bytes of a sequence of words. */
  function SerializeWords(ws: seq<Word>): (r: seq<Byte>)
    ensures |r| == 4 * |ws|
  {
    if ws == [] then [] else SerializeWords(ws[..|ws| - 1]) + WordBytes(ws[|ws| - 1])
  }

  /** Reads a byte sequence back as big-endian words. */
  function DeserializeWords(bs: seq<Byte>): (r: seq<Word>)
    requires |bs| % 4 == 0
    ensures 4 * |r| == |bs|
  {
    if bs == [] then []
    else
      var n := |bs|;
      DeserializeWords(bs[..n - 4]) + [BeWord(bs[n - 4], bs[n - 3], bs[n - 2], bs[n - 1])]
  }

  /** Bytes 4i..4i+3 of the serialisation are the big-endian bytes of word i. */
  lemma {:induction false} SerializeWordsAt(ws: seq<Word>, i: nat)
    requires i < |ws|
    ensures SerializeWords(ws)[4 * i .. 4 * i + 4] == WordBytes(ws[i])
  {
    var n := |ws|;
    var front := SerializeWords(ws[..n - 1]);
    assert SerializeWords(ws) == front + WordBytes(ws[n - 1]);
    if i < n - 1 {
      SerializeWordsAt(ws[..n - 1], i);
      assert SerializeWords(ws)[4 * i .. 4 * i + 4] == front[4 * i .. 4 * i + 4];
    } else {
      assert |front| == 4 * i;
    }
  }

  /** Reading back a serialisation extended by one word gives that word last. */
  lemma DeserializeSnoc(front: seq<Byte>, w: Word)
    requires |front| % 4 == 0
    ensures DeserializeWords(front + WordBytes(w)) == DeserializeWords(front) + [w]
  {
    var bs := front + WordBytes(w);
    var s := WordBytes(w);
    var n := |bs|;
    assert bs[..n - 4] == front;
    assert bs[n - 4] == s[0] && bs[n - 3] == s[1] && bs[n - 2] == s[2] && bs[n - 1] == s[3];
    BeWordOfWordBytes(w);
  }

  /** The serialisation loses nothing: the words can be read back. */
  lemma {:induction false} DeserializeSerialize(ws: seq<Word>)
    ensures DeserializeWords(SerializeWords(ws)) == ws
  {
    if ws != [] {
      var n := |ws|;
      var front, w := ws[..n - 1], ws[n - 1];
      assert ws == front + [w];
      DeserializeSerialize(front);
      DeserializeSerializeSnoc(front, w);
    }
  }

  lemma DeserializeSerializeSnoc(front: seq<Word>, w: Word)
    requires DeserializeWords(SerializeWords(front)) == front
    ensures DeserializeWords(SerializeWords(front + [w])) == front + [w]
  {
    var s := SerializeWords(front);
    SerializeSnoc(front, w);
    DeserializeSnoc(s, w);
  }

  lemma SerializeSnoc(front: seq<Word>, w: Word)
    ensures SerializeWords(front + [w]) == SerializeWords(front) + WordBytes(w)
  {
    assert (front + [w])[..|front|] == front;
  }

  /** The eight bytes of a u64, most significant first: byte i is the C
      expression `(u8)(x >> (56 - 8*i))`. */
  function BeBytes64(x: Word64): (r: seq<Byte>)
    ensures |r| == 8
  {
    [Lo8Of64(x >> 56), Lo8Of64(x >> 48), Lo8Of64(x >> 40), Lo8Of64(x >> 32),
     Lo8Of64(x >> 24), Lo8Of64(x >> 16), Lo8Of64(x >> 8), Lo8Of64(x)]
  }

  /** Joins eight bytes, the first the most significant, into a u64. */
  function Join64(b0: Byte, b1: Byte, b2: Byte, b3: Byte, b4: Byte, b5: Byte, b6: Byte, b7: Byte): Word64
  {
    ((b0 as Word64) << 56) | ((b1 as Word64) << 48) | ((b2 as Word64) << 40)
    | ((b3 as Word64) << 32) | ((b4 as Word64) << 24) | ((b5 as Word64) << 16)
    | ((b6 as Word64) << 8) | (b7 as Word64)
  }

  /** Reads eight bytes as a big-endian u64. */
  function BeValue64(s: seq<Byte>): Word64
    requires |s| == 8
  {
    Join64(s[0], s[1], s[2], s[3], s[4], s[5], s[6], s[7])
  }

  /** The length field round-trips: reading the eight bytes back gives the value. */
  lemma BeValueOfBeBytes64(x: Word64)
    ensures BeValue64(BeBytes64(x)) == x
  {
    JoinBytesOf64(x);
  }

  lemma JoinBytesOf64(x: Word64)
    ensures Join64(Lo8Of64(x >> 56), Lo8Of64(x >> 48), Lo8Of64(x >> 40), Lo8Of64(x >> 32),
                   Lo8Of64(x >> 24), Lo8Of64(x >> 16), Lo8Of64(x >> 8), Lo8Of64(x)) == x
  {
  }
}
