/** The C library's block operations. */
module Memory {
  import opened Bytes

  /** `memmove`: the two ranges may overlap. */
  method Memmove(dst: array<byte>, at: nat, src: array<byte>, from: nat, n: nat)
    requires at + n <= dst.Length && from + n <= src.Length
    modifies dst
    ensures forall i :: 0 <= i < dst.Length ==>
              dst[i] == if at <= i < at + n then old(src[from + (i - at)]) else old(dst[i])
  {
    forall i | 0 <= i < n {
      dst[at + i] := src[from + i];
    }
  }

  /** `memmove` to the front of the block itself. */
  method MoveToFront(block: array<byte>, from: nat, n: nat)
    requires from + n <= block.Length
    modifies block
    ensures block[..n] == old(block[from..from + n])
  {
    ghost var moved := block[from..from + n];
    Memmove(block, 0, block, from, n);
    assert forall i :: 0 <= i < n ==> block[i] == moved[i];
  }

  /** `memcpy`: C gives it no meaning on overlapping ranges. */
  method Memcpy(dst: array<byte>, at: nat, src: array<byte>, from: nat, n: nat)
    requires dst != src || from + n <= at || at + n <= from
    requires at + n <= dst.Length && from + n <= src.Length
    modifies dst
    ensures forall i :: 0 <= i < dst.Length ==>
              dst[i] == if at <= i < at + n then old(src[from + (i - at)]) else old(dst[i])
  {
    Memmove(dst, at, src, from, n);
  }

  /** `memset(dst, 0, n)`. */
  method ClearBytes(dst: array<byte>, n: nat)
    requires n <= dst.Length
    modifies dst
    ensures forall i :: 0 <= i < dst.Length ==> dst[i] == if i < n then 0 else old(dst[i])
  {
    forall i | 0 <= i < n {
      dst[i] := 0;
    }
  }
}
