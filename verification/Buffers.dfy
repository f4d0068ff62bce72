/** Output buffers that are filled from a moving cursor. */
module Buffers {
  import opened Bytes

  /** The buffer contents after `data` was written at `pos`. */
  function Splice(s: bytes, pos: nat, data: bytes): (r: bytes)
    requires pos + |data| <= |s|
    ensures |r| == |s|
  {
    s[..pos] + data + s[pos + |data|..]
  }

  lemma {:induction false} SpliceNothing(s: bytes, pos: nat)
    requires pos <= |s|
    ensures Splice(s, pos, []) == s
  {
  }

  lemma {:induction false} SpliceElement(s: bytes, pos: nat, b: byte)
    requires pos < |s|
    ensures Splice(s, pos, [b]) == s[pos := b]
  {
  }

  /** Two writes one after the other are one longer write. */
  lemma {:induction false} SpliceSplice(s: bytes, pos: nat, a: bytes, b: bytes)
    requires pos + |a| + |b| <= |s|
    ensures Splice(Splice(s, pos, a), pos + |a|, b) == Splice(s, pos, a + b)
  {
  }

  /** Writing at the cursor extends what is in front of it. */
  lemma {:induction false} SplicePrefix(s: bytes, pos: nat, data: bytes)
    requires pos + |data| <= |s|
    ensures Splice(s, pos, data)[..pos + |data|] == s[..pos] + data
  {
  }

  /** A write that ends with the buffer replaces its tail. */
  lemma {:induction false} SpliceEnd(s: bytes, pos: nat, data: bytes)
    requires pos + |data| == |s|
    ensures Splice(s, pos, data) == s[..pos] + data
  {
  }

  method WriteAt(buffer: array<byte>, pos: nat, data: bytes)
    requires pos + |data| <= buffer.Length
    modifies buffer
    ensures buffer[..] == Splice(old(buffer[..]), pos, data)
  {
    ghost var before := buffer[..];
    var i := 0;
    while i < |data|
      invariant i <= |data|
      invariant buffer[..] == Splice(before, pos, data[..i])
    {
      buffer[pos + i] := data[i];
      i := i + 1;
      SpliceSplice(before, pos, data[..i - 1], [data[i - 1]]);
      assert data[..i - 1] + [data[i - 1]] == data[..i];
    }
    assert data[..i] == data;
  }
}
