/** `bytes_to_hex`: lowercase hexadecimal text of a byte string, high
    nibble first, NUL-terminated; and the decoding that inverts it. */
module HexCodec {
  import opened Words
  import opened Wrappers

  /** The digit table of `bytes_to_hex`. */
  const HexDigits: seq<char> := "0123456789abcdef"

  /** The high base-16 digit of a byte: the C code's `(x >> 4) & 0xF`. */
  function Hi(x: Byte): (r: nat)
    ensures r < 16
  {
    ((x >> 4) & 0xF) as int
  }

  /** The low base-16 digit of a byte: the C code's `x & 0xF`. */
  function Lo(x: Byte): (r: nat)
    ensures r < 16
  {
    (x & 0xF) as int
  }

  /** The two nibble expressions are the byte's base-16 digits. */
  lemma NibbleDigits(x: Byte)
    ensures Hi(x) == x as int / 16 && Lo(x) == x as int % 16
  {
  }

  predicate IsHexDigit(c: char)
  {
    '0' <= c <= '9' || 'a' <= c <= 'f'
  }

  /** The lowercase digit for a value below 16. */
  function DigitChar(k: nat): (c: char)
    requires k < 16
    ensures IsHexDigit(c)
  {
    if k < 10 then ('0' as int + k) as char else ('a' as int + k - 10) as char
  }

  /** The table `bytes_to_hex` indexes holds exactly these digits. */
  lemma HexDigitsTable(k: nat)
    requires k < 16
    ensures HexDigits[k] == DigitChar(k)
  {
  }

  /** The two characters written for one byte. */
  function HexPair(x: Byte): (r: seq<char>)
    ensures |r| == 2
  {
    [DigitChar(Hi(x)), DigitChar(Lo(x))]
  }

  /** The hex text of `b`, without the terminator. */
  function Hex(b: seq<Byte>): (r: seq<char>)
    ensures |r| == 2 * |b|
    ensures forall i :: 0 <= i < |r| ==> IsHexDigit(r[i])
  {
    if b == [] then []
    else Hex(b[..|b| - 1]) + HexPair(b[|b| - 1])
  }

  /** Characters 2i and 2i+1 are the high and the low base-16 digit of b[i]. */
  lemma HexAt(b: seq<Byte>, i: nat)
    requires i < |b|
    ensures Hex(b)[2 * i] == HexDigits[Hi(b[i])] && Hex(b)[2 * i + 1] == HexDigits[Lo(b[i])]
  {
    HexPairAt(b, i);
    HexDigitsTable(Hi(b[i]));
    HexDigitsTable(Lo(b[i]));
  }

  lemma {:induction false} HexPairAt(b: seq<Byte>, i: nat)
    requires i < |b|
    ensures Hex(b)[2 * i] == DigitChar(Hi(b[i])) && Hex(b)[2 * i + 1] == DigitChar(Lo(b[i]))
  {
    var n := |b|;
    var front := b[..n - 1];
    assert Hex(b) == Hex(front) + HexPair(b[n - 1]);
    if i < n - 1 {
      HexPairAt(front, i);
      assert front[i] == b[i];
    }
  }

  /** The value of a lowercase hex digit; None for any other character. */
  function DigitValue(c: char): (r: Option<nat>)
    ensures r.Some? <==> IsHexDigit(c)
    ensures r.Some? ==> r.value < 16 && DigitChar(r.value) == c
  {
    if '0' <= c <= '9' then Some((c - '0') as nat)
    else if 'a' <= c <= 'f' then Some((c - 'a') as nat + 10)
    else None
  }

  lemma DigitValueOfDigit(n: nat)
    requires n < 16
    ensures DigitValue(DigitChar(n)) == Some(n)
  {
  }

  /** The byte with base-16 digits hi and lo. */
  function JoinNibbles(hi: nat, lo: nat): Byte
    requires hi < 16 && lo < 16
  {
    ((hi as Byte) << 4) | (lo as Byte)
  }

  /** Splitting a byte into its digits and joining them gives the byte back. */
  lemma JoinSplit(x: Byte)
    ensures JoinNibbles(Hi(x), Lo(x)) == x
  {
    NibbleValue((x >> 4) & 0xF);
    NibbleValue(x & 0xF);
    assert (((x >> 4) & 0xF) << 4) | (x & 0xF) == x;
  }

  lemma NibbleValue(b: Byte)
    requires b < 16
    ensures (b as int) as Byte == b
  {
  }

  /** Joining two digits and splitting the byte gives the digits back. */
  lemma SplitJoin(hi: nat, lo: nat)
    requires hi < 16 && lo < 16
    ensures Hi(JoinNibbles(hi, lo)) == hi && Lo(JoinNibbles(hi, lo)) == lo
  {
    var h, l := hi as Byte, lo as Byte;
    DigitByte(hi);
    DigitByte(lo);
    assert (((h << 4) | l) >> 4) & 0xF == h && ((h << 4) | l) & 0xF == l;
  }

  lemma DigitByte(n: nat)
    requires n < 16
    ensures n as Byte < 16 && (n as Byte) as int == n
  {
  }

  /** Reads hex text back into bytes: None when the length is odd or a
      character is not a lowercase hex digit. */
  function HexDecode(s: seq<char>): (r: Option<seq<Byte>>)
    ensures r.Some? ==> 2 * |r.value| == |s|
  {
    if s == [] then Some([])
    else if |s| == 1 then None
    else
      var n := |s|;
      var front, hi, lo := HexDecode(s[..n - 2]), DigitValue(s[n - 2]), DigitValue(s[n - 1]);
      if front.Some? && hi.Some? && lo.Some? then Some(front.value + [JoinNibbles(hi.value, lo.value)])
      else None
  }

  /** Appending two digits to decodable text appends the byte they spell. */
  lemma HexDecodeSnoc(s: seq<char>, hi: nat, lo: nat)
    requires HexDecode(s).Some? && hi < 16 && lo < 16
    ensures HexDecode(s + [DigitChar(hi), DigitChar(lo)]) == Some(HexDecode(s).value + [JoinNibbles(hi, lo)])
  {
    var t := s + [DigitChar(hi), DigitChar(lo)];
    var n := |t|;
    assert t[..n - 2] == s;
    assert t[n - 2] == DigitChar(hi) && t[n - 1] == DigitChar(lo);
    DigitValueOfDigit(hi);
    DigitValueOfDigit(lo);
    assert DigitValue(t[n - 2]) == Some(hi);
    assert DigitValue(t[n - 1]) == Some(lo);
  }

  /** Decoding the encoding gives the bytes back. */
  lemma {:induction false} HexDecodeHex(b: seq<Byte>)
    ensures HexDecode(Hex(b)) == Some(b)
  {
    if b != [] {
      var n := |b|;
      var front, x := b[..n - 1], b[n - 1];
      assert b == front + [x];
      HexDecodeHex(front);
      HexSnocByte(front, x);
      DecodePair(Hex(front), x);
    }
  }

  /** Appending the pair of one byte to decodable text appends that byte. */
  lemma DecodePair(s: seq<char>, x: Byte)
    requires HexDecode(s).Some?
    ensures HexDecode(s + HexPair(x)) == Some(HexDecode(s).value + [x])
  {
    HexDecodeSnoc(s, Hi(x), Lo(x));
    JoinSplit(x);
  }

  /** The pair written for the byte two digits spell is those digits. */
  lemma PairOfDigits(hi: nat, lo: nat)
    requires hi < 16 && lo < 16
    ensures HexPair(JoinNibbles(hi, lo)) == [DigitChar(hi), DigitChar(lo)]
  {
    SplitJoin(hi, lo);
  }

  lemma HexSnoc(b: seq<Byte>, i: nat)
    requires i < |b|
    ensures Hex(b[..i + 1]) == Hex(b[..i]) + HexPair(b[i])
  {
    assert b[..i + 1][..i] == b[..i];
  }

  /** Text that decodes is exactly the encoding of what it decodes to, so
      the encoding is the only spelling of a byte string. */
  lemma {:induction false} HexOfHexDecode(s: seq<char>, b: seq<Byte>)
    requires HexDecode(s) == Some(b)
    ensures Hex(b) == s
  {
    if s != [] {
      var n := |s|;
      var rest := s[..n - 2];
      var front, hi, lo := HexDecodeLast(s);
      var x := JoinNibbles(hi, lo);
      HexOfHexDecode(rest, front);
      HexSnocByte(front, x);
      PairOfDigits(hi, lo);
    }
  }

  /** Nonempty decodable text ends in two digits after decodable text. */
  lemma HexDecodeLast(s: seq<char>) returns (front: seq<Byte>, hi: nat, lo: nat)
    requires HexDecode(s).Some? && s != []
    ensures |s| >= 2 && hi < 16 && lo < 16
    ensures HexDecode(s[..|s| - 2]) == Some(front)
    ensures s == s[..|s| - 2] + [DigitChar(hi), DigitChar(lo)]
    ensures HexDecode(s).value == front + [JoinNibbles(hi, lo)]
  {
    var n := |s|;
    hi, lo := DigitValue(s[n - 2]).value, DigitValue(s[n - 1]).value;
    front := HexDecode(s[..n - 2]).value;
    assert s == s[..n - 2] + [s[n - 2], s[n - 1]];
  }

  lemma HexSnocByte(front: seq<Byte>, x: Byte)
    ensures Hex(front + [x]) == Hex(front) + HexPair(x)
  {
    assert (front + [x])[..|front|] == front;
  }

  /** The two stores of one loop step:
      `out_hex[i*2] = hex[(x >> 4) & 0xF]; out_hex[i*2+1] = hex[x & 0xF]`. */
  method StorePair(outHex: array<char>, i: nat, x: Byte)
    requires 2 * i + 2 <= outHex.Length
    modifies outHex
    ensures outHex[..] == old(outHex[..2 * i]) + HexPair(x) + old(outHex[2 * i + 2..])
  {
    var hi := HexDigits[((x >> 4) & 0xF) as int];
    var lo := HexDigits[(x & 0xF) as int];
    PairChars(x);
    outHex[i * 2] := hi;
    outHex[i * 2 + 1] := lo;
    assert outHex[..] == outHex[..2 * i] + [hi, lo] + outHex[2 * i + 2..];
  }

  /** The digits the C code looks up for x are the pair written for x. */
  lemma PairChars(x: Byte)
    ensures [HexDigits[((x >> 4) & 0xF) as int], HexDigits[(x & 0xF) as int]] == HexPair(x)
  {
    HexDigitsTable(Hi(x));
    HexDigitsTable(Lo(x));
  }

  /** `bytes_to_hex(in, inlen, out_hex)`: writes the 2*inlen digits of `inp`
      and a NUL at index 2*inlen; the rest of out_hex is untouched. */
  method BytesToHex(inp: seq<Byte>, outHex: array<char>)
    requires outHex.Length >= 2 * |inp| + 1
    modifies outHex
    ensures outHex[..2 * |inp| + 1] == Hex(inp) + ['\0']
    ensures outHex[2 * |inp| + 1..] == old(outHex[2 * |inp| + 1..])
  {
    for i := 0 to |inp|
      invariant outHex[..2 * i] == Hex(inp[..i])
      invariant outHex[2 * i..] == old(outHex[2 * i..])
    {
      StorePair(outHex, i, inp[i]);
      HexSnoc(inp, i);
    }
    outHex[|inp| * 2] := '\0';
    assert inp[..|inp|] == inp;
  }
}
