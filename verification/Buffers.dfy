/** Copying into an output buffer. */
module Buffers {
  import opened SeqFacts

  /** memcpy to the current offset. */
  method Copy(dst: array<char>, offset: nat, src: string) returns (next: nat)
    requires offset + |src| <= dst.Length
    modifies dst
    ensures next == offset + |src|
    ensures dst[..next] == old(dst[..offset]) + src
  {
    next := offset;
    while next < offset + |src|
      invariant offset <= next <= offset + |src|
      invariant dst[..next] == old(dst[..offset]) + src[..next - offset]
    {
      dst[next] := src[next - offset];
      next := next + 1;
    }
    assert src[..|src|] == src;
  }

  /** Three memcpy in a row. */
  method Copy3(dst: array<char>, offset: nat, a: string, b: string, c: string) returns (next: nat)
    requires offset + |a| + |b| + |c| <= dst.Length
    modifies dst
    ensures next == offset + |a| + |b| + |c|
    ensures dst[..next] == old(dst[..offset]) + (a + b + c)
  {
    next := Copy(dst, offset, a);
    next := Copy(dst, next, b);
    next := Copy(dst, next, c);
    Assoc4(old(dst[..offset]), a, b, c);
  }
}
