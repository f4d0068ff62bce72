/** The cryptographic primitives as parameters: X25519, HMAC-SHA256, Blake2b, the AES-256 block
    permutation, the GCM tag and the XChaCha20-Poly1305 AEAD. `Lawful` lists everything the
    proofs use of them, and `ToyIsLawful` shows that the list is satisfiable. */
module Primitives {
  import opened Wrappers
  import opened Bytes

  type Block = b: bytes | |b| == 16 witness Zeros(16)
  type Nonce = b: bytes | |b| == 24 witness Zeros(24)

  datatype Primitives = Primitives(
    basePoint: Key -> Key,
    scalarMult: (Key, Key) -> Option<Key>,
    hmacSha256: (bytes, bytes) -> Key,
    blake2b: bytes -> Key,
    encryptBlock: (Key, Block) -> Block,
    decryptBlock: (Key, Block) -> Block,
    gcmTag: (Key, bytes, bytes) -> Block,
    seal: (Key, Nonce, bytes) -> bytes,
    open: (Key, Nonce, bytes) -> Option<bytes>
  ) {

    /** Two key pairs agree on a secret, and the all-zero point is refused. */
    ghost predicate LawfulCurve() {
      && (forall a, b :: scalarMult(a, basePoint(b)) == scalarMult(b, basePoint(a)))
      && (forall a, b :: scalarMult(a, basePoint(b)).Some?)
      && (forall a :: scalarMult(a, NULL_KEY) == None)
    }

    /** Decryption undoes encryption; only the block cipher is used for AES. */
    ghost predicate LawfulCiphers() {
      && (forall k, b :: decryptBlock(k, encryptBlock(k, b)) == b)
      && (forall k, n, m :: |seal(k, n, m)| == |m| + 16)
      && (forall k, n, m :: open(k, n, seal(k, n, m)) == Some(m))
      && (forall k, n, c :: open(k, n, c).Some? ==> |c| == |open(k, n, c).value| + 16)
    }

    ghost predicate Lawful() {
      LawfulCurve() && LawfulCiphers()
    }
  }

  // ---------- A witness ----------

  function ToyPoint(a: Key): Key { [1] + a[1..] }

  function AddBytes(a: byte, b: byte): byte { (a + b) % 256 }

  function ToySecret(a: Key, b: Key): Option<Key> {
    if b == NULL_KEY then None
    else Some([1] + seq(31, i requires 0 <= i < 31 => AddBytes(a[i + 1], b[i + 1])))
  }

  function ToyTag(): Block { Zeros(16) }

  function ToyOpen(c: bytes): Option<bytes> {
    if |c| >= 16 && c[|c| - 16..] == ToyTag() then Some(c[..|c| - 16]) else None
  }

  const TOY: Primitives := Primitives(
    ToyPoint,
    ToySecret,
    (salt: bytes, m: bytes) => NULL_KEY,
    (m: bytes) => NULL_KEY,
    (k: Key, b: Block) => b,
    (k: Key, b: Block) => b,
    (k: Key, iv: bytes, c: bytes) => ToyTag(),
    (k: Key, n: Nonce, m: bytes) => m + ToyTag(),
    (k: Key, n: Nonce, c: bytes) => ToyOpen(c)
  )

  lemma {:induction false} ToySecretsAgree(a: Key, b: Key)
    ensures ToySecret(a, ToyPoint(b)) == ToySecret(b, ToyPoint(a))
    ensures ToySecret(a, ToyPoint(b)).Some?
  {
    hide AddBytes;
    assert ToyPoint(a)[0] == 1 && ToyPoint(b)[0] == 1;
    assert NULL_KEY[0] == 0;
    var x, y := ToySecret(a, ToyPoint(b)).value, ToySecret(b, ToyPoint(a)).value;
    forall i | 0 <= i < 32 ensures x[i] == y[i] {
      if i > 0 {
        ToySumsCommute(a[i], b[i]);
      }
    }
    assert x == y;
  }

  lemma {:induction false} ToySumsCommute(a: byte, b: byte)
    ensures AddBytes(a, b) == AddBytes(b, a)
  {
  }

  lemma {:induction false} ToyOpens(m: bytes)
    ensures ToyOpen(m + ToyTag()) == Some(m)
  {
    var c := m + ToyTag();
    assert c[|c| - 16..] == ToyTag() && c[..|c| - 16] == m;
  }

  lemma {:induction false} ToyIsLawful()
    ensures TOY.Lawful()
  {
    ToyCurveIsLawful();
    ToyCiphersAreLawful();
  }

  lemma {:induction false} ToyCurveIsLawful()
    ensures TOY.LawfulCurve()
  {
    forall a: Key, b: Key
      ensures TOY.scalarMult(a, TOY.basePoint(b)) == TOY.scalarMult(b, TOY.basePoint(a))
      ensures TOY.scalarMult(a, TOY.basePoint(b)).Some? && TOY.scalarMult(a, NULL_KEY) == None
    {
      ToySecretsAgree(a, b);
      ToyNull(a);
    }
  }

  lemma {:induction false} ToyCiphersAreLawful()
    ensures TOY.LawfulCiphers()
  {
    forall k: Key, n: Nonce, m: bytes
      ensures TOY.open(k, n, TOY.seal(k, n, m)) == Some(m)
    {
      ToyOpens(m);
    }
    forall k: Key, n: Nonce, c: bytes
      ensures TOY.open(k, n, c).Some? ==> |c| == |TOY.open(k, n, c).value| + 16
    {
      ToyOpenLength(c);
    }
  }

  lemma {:induction false} ToyNull(a: Key)
    ensures ToySecret(a, NULL_KEY) == None
  {
  }

  lemma {:induction false} ToyOpenLength(c: bytes)
    ensures ToyOpen(c).Some? ==> |c| == |ToyOpen(c).value| + 16
  {
  }
}
