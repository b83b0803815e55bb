/** The two libc byte-buffer primitives the core relies on: `memcpy` into a
    buffer and the `memcmp` equality test. */
module Memory {
  import opened Words

  /** `memcpy(dst + off, src, |src|)`: only bytes off..off+|src|-1 change. */
  method CopyInto(dst: array<Byte>, off: nat, src: seq<Byte>)
    requires off + |src| <= dst.Length
    modifies dst
    ensures dst[..] == old(dst[..off]) + src + old(dst[off + |src|..])
  {
    forall i | 0 <= i < |src| {
      dst[off + i] := src[i];
    }
  }

  /** `memcmp(a, b, n)`: zero exactly when the first n bytes agree; otherwise
      the difference of the first pair of bytes that differ (as unsigned chars),
      so the sign orders the buffers. */
  method Memcmp(a: seq<Byte>, b: seq<Byte>, n: nat) returns (r: int)
    requires n <= |a| && n <= |b|
    ensures r == 0 <==> a[..n] == b[..n]
    ensures r != 0 ==> exists i :: 0 <= i < n && a[..i] == b[..i] && a[i] != b[i]
                                   && r == a[i] as int - b[i] as int
  {
    var i := 0;
    while i < n
      invariant i <= n
      invariant a[..i] == b[..i]
    {
      if a[i] != b[i] {
        r := a[i] as int - b[i] as int;
        assert a[i] != b[i] && a[..n][i] != b[..n][i];
        return;
      }
      assert a[..i + 1] == a[..i] + [a[i]] && b[..i + 1] == b[..i] + [b[i]];
      i := i + 1;
    }
    r := 0;
  }
}
