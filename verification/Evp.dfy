/** OpenSSL's streaming cipher interface for AES-256 in CBC mode (NIST SP 800-38A section 6.2,
    padding of RFC 5652 section 6.3) and in GCM (NIST SP 800-38D) over an abstract block
    permutation. `Context` is the object the library drives through Update and Final. */
module Evp {
  import opened Wrappers
  import opened Bytes
  import opened Buffers
  import opened Primitives

  datatype Cipher = Aes256Cbc | Aes256Gcm {
    function IvLength(): nat { if this == Aes256Cbc then 16 else 12 }
    function BlockSize(): nat { if this == Aes256Cbc then 16 else 1 }
    function TagLength(): nat { if this == Aes256Cbc then 0 else 16 }
  }

  // ---------- CBC ----------

  function XorBlock(a: Block, b: Block): Block {
    seq(16, i requires 0 <= i < 16 => Xor(a[i], b[i]))
  }

  function CbcEncrypt(p: Primitives, key: Key, chain: Block, data: bytes): (ct: bytes)
    requires |data| % 16 == 0
    ensures |ct| == |data|
    decreases |data|
  {
    if data == [] then [] else
    var c := p.encryptBlock(key, XorBlock(data[..16], chain));
    c + CbcEncrypt(p, key, c, data[16..])
  }

  function CbcDecrypt(p: Primitives, key: Key, chain: Block, ct: bytes): (data: bytes)
    requires |ct| % 16 == 0
    ensures |data| == |ct|
    decreases |ct|
  {
    if ct == [] then [] else
    XorBlock(p.decryptBlock(key, ct[..16]), chain) + CbcDecrypt(p, key, ct[..16], ct[16..])
  }

  lemma {:induction false} CbcDecryptEncrypt(p: Primitives, key: Key, chain: Block, data: bytes)
    requires p.LawfulCiphers() && |data| % 16 == 0
    ensures CbcDecrypt(p, key, chain, CbcEncrypt(p, key, chain, data)) == data
    decreases |data|
  {
    if data != [] {
      var x := XorBlock(data[..16], chain);
      var c := p.encryptBlock(key, x);
      var ct := CbcEncrypt(p, key, chain, data);
      assert ct[..16] == c && ct[16..] == CbcEncrypt(p, key, c, data[16..]);
      CbcDecryptEncrypt(p, key, c, data[16..]);
      forall i | 0 <= i < 16
        ensures XorBlock(x, chain)[i] == data[..16][i]
      {
        XorBack(data[i], chain[i]);
      }
      assert XorBlock(x, chain) == data[..16];
      assert data == data[..16] + data[16..];
    }
  }

  /** The chaining value after some ciphertext. */
  function LastBlock(chain: Block, ct: bytes): Block
    requires |ct| % 16 == 0
  {
    if ct == [] then chain else ct[|ct| - 16..]
  }

  lemma {:induction false} LastBlockStep(chain: Block, block: Block, rest: bytes)
    requires |rest| % 16 == 0
    ensures LastBlock(chain, block + rest) == LastBlock(block, rest)
  {
    if rest == [] {
      assert block + rest == block && block[0..] == block;
    } else {
      assert (block + rest)[|rest|..] == rest[|rest| - 16..];
    }
  }

  lemma {:induction false} LastBlockNone(chain: Block)
    ensures LastBlock(chain, []) == chain
  {
  }

  lemma {:induction false} CbcEncryptStep(p: Primitives, key: Key, chain: Block, block: Block, rest: bytes)
    requires |rest| % 16 == 0
    ensures var c := p.encryptBlock(key, XorBlock(block, chain));
            CbcEncrypt(p, key, chain, block + rest) == c + CbcEncrypt(p, key, c, rest)
  {
    assert (block + rest)[..16] == block && (block + rest)[16..] == rest;
  }

  lemma {:induction false} CbcEncryptAppend(p: Primitives, key: Key, chain: Block, a: bytes, b: bytes)
    requires |a| % 16 == 0 && |b| % 16 == 0
    ensures CbcEncrypt(p, key, chain, a + b)
         == CbcEncrypt(p, key, chain, a)
            + CbcEncrypt(p, key, LastBlock(chain, CbcEncrypt(p, key, chain, a)), b)
    decreases |a|
  {
    hide XorBlock, CbcEncrypt, LastBlock;
    if a == [] {
      assert a + b == b;
      LastBlockNone(chain);
    } else {
      var block, rest := a[..16], a[16..];
      var c := p.encryptBlock(key, XorBlock(block, chain));
      CbcEncryptAppend(p, key, c, rest, b);
      CbcEncryptStep(p, key, chain, block, rest);
      CbcEncryptStep(p, key, chain, block, rest + b);
      assert a == block + rest && a + b == block + (rest + b);
      var first := CbcEncrypt(p, key, c, rest);
      LastBlockStep(chain, c, first);
      var second := CbcEncrypt(p, key, LastBlock(c, first), b);
      assert c + (first + second) == (c + first) + second;
    }
  }

  lemma {:induction false} CbcDecryptStep(p: Primitives, key: Key, chain: Block, block: Block, rest: bytes)
    requires |rest| % 16 == 0
    ensures CbcDecrypt(p, key, chain, block + rest)
         == XorBlock(p.decryptBlock(key, block), chain) + CbcDecrypt(p, key, block, rest)
  {
    assert (block + rest)[..16] == block && (block + rest)[16..] == rest;
  }

  lemma {:induction false} CbcDecryptAppend(p: Primitives, key: Key, chain: Block, a: bytes, b: bytes)
    requires |a| % 16 == 0 && |b| % 16 == 0
    ensures CbcDecrypt(p, key, chain, a + b)
         == CbcDecrypt(p, key, chain, a) + CbcDecrypt(p, key, LastBlock(chain, a), b)
    decreases |a|
  {
    hide XorBlock, CbcDecrypt, LastBlock;
    if a == [] {
      assert a + b == b;
      LastBlockNone(chain);
    } else {
      var block, rest := a[..16], a[16..];
      CbcDecryptAppend(p, key, block, rest, b);
      CbcDecryptStep(p, key, chain, block, rest);
      CbcDecryptStep(p, key, chain, block, rest + b);
      assert a == block + rest && a + b == block + (rest + b);
      LastBlockStep(chain, block, rest);
      var x := XorBlock(p.decryptBlock(key, block), chain);
      var first, second := CbcDecrypt(p, key, block, rest), CbcDecrypt(p, key, LastBlock(block, rest), b);
      assert x + (first + second) == (x + first) + second;
    }
  }

  lemma {:induction false} EncryptOneMore(p: Primitives, key: Key, start: Block, data: bytes, block: Block)
    requires |data| % 16 == 0
    ensures var ct := CbcEncrypt(p, key, start, data);
            var c := p.encryptBlock(key, XorBlock(block, LastBlock(start, ct)));
            CbcEncrypt(p, key, start, data + block) == ct + c && LastBlock(start, ct + c) == c
  {
    CbcEncryptAppend(p, key, start, data, block);
    assert block[..16] == block && block[16..] == [];
  }

  lemma {:induction false} DecryptOneMore(p: Primitives, key: Key, start: Block, data: bytes, block: Block)
    requires |data| % 16 == 0
    ensures var next := XorBlock(p.decryptBlock(key, block), LastBlock(start, data));
            CbcDecrypt(p, key, start, data + block) == CbcDecrypt(p, key, start, data) + next
  {
    CbcDecryptAppend(p, key, start, data, block);
    assert block[..16] == block && block[16..] == [];
  }

  // ---------- Padding ----------

  function PadByte(n: nat): (k: byte)
    ensures 1 <= k <= 16 && (n + k) % 16 == 0
  {
    16 - n % 16
  }

  /** Fills `data` up to whole blocks; always adds at least one byte. */
  function Pad(data: bytes): (d: bytes)
    ensures |d| == 16 * (|data| / 16 + 1)
  {
    data + seq(PadByte(|data|), _ => PadByte(|data|))
  }

  /** The number of padding bytes of a last block, if they are well formed. */
  function PaddingOf(block: Block): (k: Option<nat>)
    ensures k.Some? ==> 1 <= k.value <= 16
  {
    var k := block[15];
    if 1 <= k <= 16 && forall i :: 16 - k <= i < 16 ==> block[i] == k then Some(k) else None
  }

  function Unpad(data: bytes): (r: Option<bytes>)
    requires |data| % 16 == 0
  {
    if data == [] then None
    else match PaddingOf(data[|data| - 16..])
      case None => None
      case Some(k) => Some(data[..|data| - k])
  }

  lemma {:induction false} UnpadPad(data: bytes)
    ensures Unpad(Pad(data)) == Some(data)
  {
    var d, k := Pad(data), PadByte(|data|);
    var last := d[|d| - 16..];
    assert forall i :: 16 - k <= i < 16 ==> last[i] == d[|d| - 16 + i] == k;
    assert d[..|d| - k] == data;
  }

  /** Encrypting whole blocks and then the padded rest encrypts the padded whole. */
  lemma {:induction false} CbcOneShot(p: Primitives, key: Key, iv: Block, data: bytes)
    ensures var n := |data| / 16 * 16;
            var ct := CbcEncrypt(p, key, iv, data[..n]);
            ct + CbcEncrypt(p, key, LastBlock(iv, ct), Pad(data[n..])) == CbcEncrypt(p, key, iv, Pad(data))
  {
    var n := |data| / 16 * 16;
    assert PadByte(|data|) == PadByte(|data[n..]|);
    assert data[..n] + Pad(data[n..]) == Pad(data);
    CbcEncryptAppend(p, key, iv, data[..n], Pad(data[n..]));
  }

  // ---------- Counter mode ----------

  function BigEndian32(n: nat): (b: bytes)
    ensures |b| == 4
  {
    [n / 0x100_0000 % 256, n / 0x1_0000 % 256, n / 0x100 % 256, n % 256]
  }

  /** The key-stream byte at position `i`; the first data block uses counter value 2. */
  function KeyStream(p: Primitives, key: Key, iv: bytes, i: nat): byte {
    var counter := if |iv| == 12 then iv + BigEndian32((i / 16 + 2) % TWO_32) else Zeros(16);
    p.encryptBlock(key, counter)[i % 16]
  }

  function CtrXor(p: Primitives, key: Key, iv: bytes, at: nat, data: bytes): (r: bytes)
    ensures |r| == |data|
  {
    seq(|data|, i requires 0 <= i < |data| => Xor(data[i], KeyStream(p, key, iv, at + i)))
  }

  lemma {:induction false} CtrXorTwice(p: Primitives, key: Key, iv: bytes, at: nat, data: bytes)
    ensures CtrXor(p, key, iv, at, CtrXor(p, key, iv, at, data)) == data
  {
    var c := CtrXor(p, key, iv, at, data);
    forall i | 0 <= i < |data|
      ensures CtrXor(p, key, iv, at, c)[i] == data[i]
    {
      XorBack(data[i], KeyStream(p, key, iv, at + i));
    }
  }

  // ---------- The streaming context ----------

  class Context {
    const prim: Primitives
    const cipher: Cipher
    const key: Key
    const iv: bytes
    var chain: Block          // CBC: the previous ciphertext block
    var pending: bytes        // CBC: input short of a whole block
    var held: Option<Block>   // CBC decryption: a last block that may be padding
    var position: nat         // GCM: bytes of key stream used
    var authenticated: bytes  // GCM: the ciphertext so far
    var tag: Option<Block>    // GCM decryption: the expected tag

    ghost predicate Valid()
      reads this
    {
      |pending| < 16 && (cipher == Aes256Gcm ==> pending == [] && held == None)
    }

    /** A CBC context that was given a short iv never uses the missing bytes. */
    constructor (prim: Primitives, cipher: Cipher, key: Key, iv: bytes)
      ensures Valid()
      ensures this.prim == prim && this.cipher == cipher && this.key == key && this.iv == iv
      ensures chain == if |iv| == 16 then iv else Zeros(16)
      ensures pending == [] && held == None && position == 0 && authenticated == [] && tag == None
    {
      this.prim, this.cipher, this.key, this.iv := prim, cipher, key, iv;
      chain := if |iv| == 16 then iv else Zeros(16);
      pending, held, position, authenticated, tag := [], None, 0, [], None;
    }

    /** Encrypts every block that is now complete. */
    method EncryptUpdate(out: array<byte>, pos: nat, input: bytes) returns (len: nat)
      requires Valid()
      requires pos + |pending| + |input| <= out.Length
      modifies this`chain, this`pending, this`position, this`authenticated, out
      ensures Valid()
      ensures cipher == Aes256Cbc ==>
                var data := old(pending) + input;
                var ct := CbcEncrypt(prim, key, old(chain), data[..|data| / 16 * 16]);
                && len == |ct|
                && out[..] == Splice(old(out[..]), pos, ct)
                && chain == LastBlock(old(chain), ct)
                && pending == data[len..]
      ensures cipher == Aes256Gcm ==>
                var ct := CtrXor(prim, key, iv, old(position), input);
                && len == |ct|
                && out[..] == Splice(old(out[..]), pos, ct)
                && position == old(position) + len
                && authenticated == old(authenticated) + ct
    {
      if cipher == Aes256Gcm {
        len := CtrInto(out, pos, input);
        authenticated := authenticated + out[pos..pos + len];
        assert out[pos..pos + len] == CtrXor(prim, key, iv, old(position), input);
        return;
      }
      var data := pending + input;
      var n := |data| / 16 * 16;
      len := EncryptBlocks(out, pos, data[..n]);
      pending := data[n..];
    }

    method EncryptBlocks(out: array<byte>, pos: nat, data: bytes) returns (len: nat)
      requires |data| % 16 == 0 && pos + |data| <= out.Length
      modifies this`chain, out
      ensures len == |data|
      ensures chain == LastBlock(old(chain), CbcEncrypt(prim, key, old(chain), data))
      ensures out[..] == Splice(old(out[..]), pos, CbcEncrypt(prim, key, old(chain), data))
    {
      hide XorBlock, Splice;
      ghost var before := out[..];
      ghost var start := chain;
      SpliceNothing(before, pos);
      len := 0;
      while len < |data|
        invariant len <= |data| && len % 16 == 0
        invariant out[..] == Splice(before, pos, CbcEncrypt(prim, key, start, data[..len]))
        invariant chain == LastBlock(start, CbcEncrypt(prim, key, start, data[..len]))
      {
        var block := data[len..len + 16];
        ghost var ct := CbcEncrypt(prim, key, start, data[..len]);
        EncryptOneMore(prim, key, start, data[..len], block);
        assert data[..len] + block == data[..len + 16];
        chain := prim.encryptBlock(key, XorBlock(block, chain));
        WriteAt(out, pos + len, chain);
        SpliceSplice(before, pos, ct, chain);
        len := len + 16;
      }
      assert data[..len] == data;
    }

    lemma {:induction false} CtrXorOneMore(at: nat, input: bytes, len: nat)
      requires len < |input|
      ensures CtrXor(prim, key, iv, at, input[..len + 1])
           == CtrXor(prim, key, iv, at, input[..len]) + [Xor(input[len], KeyStream(prim, key, iv, at + len))]
    {
    }

    /** Counter mode over the next input, for either direction. */
    method CtrInto(out: array<byte>, pos: nat, input: bytes) returns (len: nat)
      requires pos + |input| <= out.Length
      modifies this`position, out
      ensures len == |input|
      ensures position == old(position) + len
      ensures out[..] == Splice(old(out[..]), pos, CtrXor(prim, key, iv, old(position), input))
    {
      hide Splice, CtrXor, Xor, KeyStream;
      ghost var before := out[..];
      ghost var start := position;
      SpliceNothing(before, pos);
      len := 0;
      while len < |input|
        invariant len <= |input| && position == start + len
        invariant out[..] == Splice(before, pos, CtrXor(prim, key, iv, start, input[..len]))
      {
        CtrXorOneMore(start, input, len);
        ghost var b: byte := Xor(input[len], KeyStream(prim, key, iv, position));
        SpliceElement(out[..], pos + len, b);
        SpliceSplice(before, pos, CtrXor(prim, key, iv, start, input[..len]), [b]);
        out[pos + len] := Xor(input[len], KeyStream(prim, key, iv, position));
        len, position := len + 1, position + 1;
      }
      assert input[..len] == input;
    }

    /** Pads and encrypts what is left; writes nothing in GCM. */
    method EncryptFinal(out: array<byte>, pos: nat) returns (len: nat)
      requires Valid()
      requires cipher == Aes256Cbc ==> pos + 16 <= out.Length
      modifies this`chain, this`pending, out
      ensures cipher == Aes256Cbc ==>
                var ct := CbcEncrypt(prim, key, old(chain), Pad(old(pending)));
                len == 16 == |ct| && out[..] == Splice(old(out[..]), pos, ct)
      ensures cipher == Aes256Gcm ==> len == 0 && out[..] == old(out[..])
    {
      if cipher == Aes256Gcm {
        return 0;
      }
      var block := Pad(pending);
      assert block[..16] == block && block[16..] == [];
      chain := prim.encryptBlock(key, XorBlock(block, chain));
      pending := [];
      WriteAt(out, pos, chain);
      len := 16;
    }

    /** The GCM tag of everything encrypted so far. */
    method GetTag(out: array<byte>, pos: nat)
      requires pos + 16 <= out.Length
      modifies out
      ensures out[..] == Splice(old(out[..]), pos, prim.gcmTag(key, iv, authenticated))
    {
      WriteAt(out, pos, prim.gcmTag(key, iv, authenticated));
    }

    /** Decrypts every complete block, but keeps the last one back when the input ends with it. */
    method DecryptUpdate(out: array<byte>, pos: nat, input: bytes) returns (len: nat)
      requires Valid() && pending == [] && held == None
      requires pos + |input| <= out.Length
      modifies this`chain, this`pending, this`held, this`position, this`authenticated, out
      ensures Valid()
      ensures cipher == Aes256Cbc ==>
                var n := |input| / 16 * 16;
                var plain := CbcDecrypt(prim, key, old(chain), input[..n]);
                && pending == input[n..]
                && out[..] == Splice(old(out[..]), pos, plain)
                && (if n > 0 && n == |input|
                    then len == n - 16 && held == Some(plain[n - 16..])
                    else len == n && held == None)
      ensures cipher == Aes256Gcm ==>
                && len == |input|
                && out[..] == Splice(old(out[..]), pos, CtrXor(prim, key, iv, old(position), input))
                && authenticated == old(authenticated) + input
    {
      hide Splice, CbcDecrypt, CtrXor;
      if cipher == Aes256Gcm {
        len := CtrInto(out, pos, input);
        authenticated := authenticated + input;
        return;
      }
      var n := |input| / 16 * 16;
      ghost var before := out[..];
      ghost var plain := CbcDecrypt(prim, key, chain, input[..n]);
      len := DecryptBlocks(out, pos, input[..n]);
      pending := input[n..];
      if n > 0 && n == |input| {
        held := Some(out[pos + n - 16..pos + n]);
        SplicePrefix(before, pos, plain);
        assert out[..pos + n] == before[..pos] + plain;
        assert out[pos + n - 16..pos + n] == plain[n - 16..];
        len := len - 16;
      }
    }

    method DecryptBlocks(out: array<byte>, pos: nat, data: bytes) returns (len: nat)
      requires |data| % 16 == 0 && pos + |data| <= out.Length
      modifies this`chain, out
      ensures len == |data|
      ensures chain == LastBlock(old(chain), data)
      ensures out[..] == Splice(old(out[..]), pos, CbcDecrypt(prim, key, old(chain), data))
    {
      ghost var before := out[..];
      ghost var start := chain;
      len := 0;
      while len < |data|
        invariant len <= |data| && len % 16 == 0
        invariant out[..] == Splice(before, pos, CbcDecrypt(prim, key, start, data[..len]))
        invariant chain == LastBlock(start, data[..len])
      {
        var block := data[len..len + 16];
        ghost var plain := CbcDecrypt(prim, key, start, data[..len]);
        DecryptOneMore(prim, key, start, data[..len], block);
        assert data[..len] + block == data[..len + 16];
        assert LastBlock(start, data[..len + 16]) == block;
        var next := XorBlock(prim.decryptBlock(key, block), chain);
        WriteAt(out, pos + len, next);
        SpliceSplice(before, pos, plain, next);
        chain := block;
        len := len + 16;
      }
      assert data[..len] == data;
    }

    method SetTag(t: Block)
      modifies this`tag
      ensures tag == Some(t)
    {
      tag := Some(t);
    }

    /** Removes the padding of the held block, or compares the tag. */
    method DecryptFinal(out: array<byte>, pos: nat) returns (ok: bool, len: nat)
      requires held.Some? ==> pos + 16 <= out.Length
      modifies out
      ensures cipher == Aes256Cbc ==>
                (ok <==> pending == [] && held.Some? && PaddingOf(held.value).Some?)
      ensures cipher == Aes256Cbc && ok ==>
                && len == 16 - PaddingOf(held.value).value
                && out[..] == Splice(old(out[..]), pos, held.value[..len])
      ensures cipher == Aes256Gcm ==>
                && (ok <==> tag == Some(prim.gcmTag(key, iv, authenticated)))
                && len == 0
                && out[..] == old(out[..])
    {
      len := 0;
      if cipher == Aes256Gcm {
        ok := tag == Some(prim.gcmTag(key, iv, authenticated));
        return;
      }
      ok := pending == [] && held.Some? && PaddingOf(held.value).Some?;
      if ok {
        len := 16 - PaddingOf(held.value).value;
        WriteAt(out, pos, held.value[..len]);
      }
    }
  }
}
