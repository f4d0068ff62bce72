/** Text encodings of byte strings: hex, base64 (RFC 4648 sections 8 and 4) and z-base-32.
    All three regroup the same bit string, most significant bit first, into digits of
    4, 6 or 5 bits. */
module Encodings {
  import opened Wrappers
  import opened Bytes

  // ---------- Regrouping bits ----------

  /** The `w` low bits of `n`, most significant first. */
  function BitsOf(n: nat, w: nat): (b: seq<bool>)
    ensures |b| == w
  {
    if w == 0 then [] else BitsOf(n / 2, w - 1) + [n % 2 == 1]
  }

  function ValueOf(b: seq<bool>): (n: nat)
    ensures n < Pow2(|b|)
  {
    if b == [] then 0 else 2 * ValueOf(b[..|b| - 1]) + if b[|b| - 1] then 1 else 0
  }

  lemma {:induction false} ValueOfBits(n: nat, w: nat)
    requires n < Pow2(w)
    ensures ValueOf(BitsOf(n, w)) == n
  {
    if w > 0 {
      ValueOfBits(n / 2, w - 1);
      assert BitsOf(n, w)[..w - 1] == BitsOf(n / 2, w - 1);
    }
  }

  lemma {:induction false} BitsOfValue(b: seq<bool>)
    ensures BitsOf(ValueOf(b), |b|) == b
  {
    if b != [] {
      BitsOfValue(b[..|b| - 1]);
      assert b == b[..|b| - 1] + [b[|b| - 1]];
    }
  }

  predicate Digits(vals: seq<nat>, w: nat) {
    forall i :: 0 <= i < |vals| ==> vals[i] < Pow2(w)
  }

  lemma {:induction false} OneLess(n: nat, w: nat)
    requires 0 < w <= n
    ensures n / w == 1 + (n - w) / w
    ensures n % w == (n - w) % w
  {
    var q, r := (n - w) / w, (n - w) % w;
    DivModUnique(n, w, q + 1, r);
  }

  /** The bits of a digit string. */
  function Flatten(vals: seq<nat>, w: nat): (b: seq<bool>)
    ensures |b| == |vals| * w
  {
    if vals == [] then [] else
    var rest := Flatten(vals[1..], w);
    assert |vals| * w == w + |vals[1..]| * w;
    BitsOf(vals[0], w) + rest
  }

  /** Cuts a bit string into digits; fewer than `w` left-over bits are dropped. */
  function Group(b: seq<bool>, w: nat): (vals: seq<nat>)
    requires w > 0
    ensures Digits(vals, w)
    ensures |vals| == |b| / w
    decreases |b|
  {
    if |b| < w then [] else
    var rest := Group(b[w..], w);
    OneLess(|b|, w);
    [ValueOf(b[..w])] + rest
  }

  lemma {:induction false} GroupStep(head: seq<bool>, tail: seq<bool>, w: nat)
    requires |head| == w > 0
    ensures Group(head + tail, w) == [ValueOf(head)] + Group(tail, w)
  {
    assert (head + tail)[..w] == head && (head + tail)[w..] == tail;
  }

  lemma {:induction false} GroupShort(b: seq<bool>, w: nat)
    requires |b| < w
    ensures Group(b, w) == []
  {
  }

  /** Digits survive being flattened, whatever short tail of bits follows them. */
  lemma {:induction false} GroupFlatten(vals: seq<nat>, w: nat, extra: seq<bool>)
    requires w > 0 && Digits(vals, w) && |extra| < w
    ensures Group(Flatten(vals, w) + extra, w) == vals
  {
    hide Group, Flatten, BitsOf, ValueOf;
    if vals == [] {
      assert Flatten(vals, w) + extra == extra;
      GroupShort(extra, w);
    } else {
      var v, rest := vals[0], vals[1..];
      assert vals == [v] + rest;
      assert forall i :: 0 <= i < |rest| ==> rest[i] == vals[i + 1];
      FlattenCons(v, rest, w);
      assert Flatten(vals, w) + extra == BitsOf(v, w) + (Flatten(rest, w) + extra);
      GroupStep(BitsOf(v, w), Flatten(rest, w) + extra, w);
      GroupFlatten(rest, w, extra);
      ValueOfBits(v, w);
    }
  }

  lemma {:induction false} FlattenCons(v: nat, vals: seq<nat>, w: nat)
    ensures Flatten([v] + vals, w) == BitsOf(v, w) + Flatten(vals, w)
  {
    assert ([v] + vals)[1..] == vals;
  }

  lemma {:induction false} FlattenGroup(b: seq<bool>, w: nat)
    requires w > 0 && |b| % w == 0
    ensures Flatten(Group(b, w), w) == b
    decreases |b|
  {
    hide Group, Flatten, BitsOf, ValueOf;
    if |b| < w {
      DivModUnique(|b|, w, 0, |b|);
      GroupShort(b, w);
    } else {
      OneLess(|b|, w);
      var head, tail := b[..w], b[w..];
      assert b == head + tail;
      FlattenGroup(tail, w);
      BitsOfValue(head);
      GroupStep(head, tail, w);
      FlattenCons(ValueOf(head), Group(tail, w), w);
    }
  }

  lemma {:induction false} FillUp(n: nat, w: nat)
    requires w > 0 && n % w != 0
    ensures (n + (w - n % w)) % w == 0
  {
    var q, r := n / w, n % w;
    DivModUnique(n + (w - r), w, q + 1, 0);
  }

  /** How many zero bits complete `n` bits to whole `w`-bit digits. */
  function PadBits(n: nat, w: nat): (z: nat)
    requires w > 0
    ensures z < w && (n + z) % w == 0
  {
    if n % w == 0 then 0 else
    FillUp(n, w);
    w - n % w
  }

  /** The `w`-bit digits of a byte string, the last one filled up with zero bits. */
  function ToDigits(data: bytes, w: nat): (vals: seq<nat>)
    requires w > 0
    ensures Digits(vals, w)
  {
    var bits := Flatten(data, 8);
    Group(bits + seq(PadBits(|bits|, w), _ => false), w)
  }

  /** The whole bytes in a `w`-bit digit string. */
  function FromDigits(vals: seq<nat>, w: nat): (data: bytes)
    ensures |data| == |vals| * w / 8
  {
    Pow2Of8();
    var g := Group(Flatten(vals, w), 8);
    assert forall i :: 0 <= i < |g| ==> g[i] < Pow2(8);
    g
  }

  /** Digits of at most eight bits lose nothing. */
  lemma {:induction false} FromDigitsToDigits(data: bytes, w: nat)
    requires 0 < w <= 8
    ensures FromDigits(ToDigits(data, w), w) == data
  {
    Pow2Of8();
    var bits := Flatten(data, 8);
    var pad := seq(PadBits(|bits|, w), _ => false);
    FlattenGroup(bits + pad, w);
    GroupFlatten(data, 8, pad);
  }

  // ---------- Hex ----------

  function HexValue(c: byte): (v: Option<nat>)
    ensures v.Some? ==> v.value < 16
  {
    if 48 <= c <= 57 then Some(c - 48)
    else if 97 <= c <= 102 then Some(c - 87)
    else if 65 <= c <= 70 then Some(c - 55)
    else None
  }

  function HexChar(v: nat): byte
    requires v < 16
  {
    if v < 10 then 48 + v else 87 + v
  }

  // ---------- base64 ----------

  function Base64Value(c: byte): (v: Option<nat>)
    ensures v.Some? ==> v.value < 64
  {
    if 65 <= c <= 90 then Some(c - 65)
    else if 97 <= c <= 122 then Some(c - 71)
    else if 48 <= c <= 57 then Some(c + 4)
    else if c == 43 then Some(62)
    else if c == 47 then Some(63)
    else None
  }

  function Base64Char(v: nat): byte
    requires v < 64
  {
    if v < 26 then 65 + v
    else if v < 52 then 71 + v
    else if v < 62 then v - 4
    else if v == 62 then 43
    else 47
  }

  // ---------- z-base-32 ----------

  /** The alphabet "ybndrfg8ejkmcpqxot1uwisza345h769". */
  const Z_ALPHABET: seq<byte> :=
    [121, 98, 110, 100, 114, 102, 103, 56, 101, 106, 107, 109, 99, 112, 113, 120,
     111, 116, 49, 117, 119, 105, 115, 122, 97, 51, 52, 53, 104, 55, 54, 57]

  function Lower(c: byte): (l: byte) {
    if 65 <= c <= 90 then c + 32 else c
  }

  function Base32zValue(c: byte): (v: Option<nat>)
    ensures v.Some? ==> v.value < 32
  {
    match Lower(c)
    case 121 => Some(0) case 98 => Some(1) case 110 => Some(2) case 100 => Some(3)
    case 114 => Some(4) case 102 => Some(5) case 103 => Some(6) case 56 => Some(7)
    case 101 => Some(8) case 106 => Some(9) case 107 => Some(10) case 109 => Some(11)
    case 99 => Some(12) case 112 => Some(13) case 113 => Some(14) case 120 => Some(15)
    case 111 => Some(16) case 116 => Some(17) case 49 => Some(18) case 117 => Some(19)
    case 119 => Some(20) case 105 => Some(21) case 115 => Some(22) case 122 => Some(23)
    case 97 => Some(24) case 51 => Some(25) case 52 => Some(26) case 53 => Some(27)
    case 104 => Some(28) case 55 => Some(29) case 54 => Some(30) case 57 => Some(31)
    case _ => None
  }

  // ---------- The alphabets (RFC 4648 sections 4 and 8) ----------

  /** Alphabets in rows of sixteen letters. */
  const HEX_LOWER: seq<string> := ["0123456789abcdef"]
  const HEX_UPPER: seq<string> := ["0123456789ABCDEF"]
  const BASE64_LETTERS: seq<string> :=
    ["ABCDEFGHIJKLMNOP", "QRSTUVWXYZabcdef", "ghijklmnopqrstuv", "wxyz0123456789+/"]
  const Z_LOWER: seq<string> := ["ybndrfg8ejkmcpqx", "ot1uwisza345h769"]
  const Z_UPPER: seq<string> := ["YBNDRFG8EJKMCPQX", "OT1UWISZA345H769"]

  /** Letter number `v` of the alphabet. */
  predicate IsLetter(c: byte, alphabet: seq<string>, v: nat) {
    v / 16 < |alphabet| && v % 16 < |alphabet[v / 16]| && c == alphabet[v / 16][v % 16] as int
  }

  lemma {:induction false} HexRow(v: nat)
    requires v < 16
    ensures "0123456789abcdef"[v] as int == if v < 10 then 48 + v else 87 + v
    ensures "0123456789ABCDEF"[v] as int == if v < 10 then 48 + v else 55 + v
  {
  }

  lemma {:induction false} HexAlphabet(c: byte, v: nat)
    ensures HexValue(c) == Some(v) <==> IsLetter(c, HEX_LOWER, v) || IsLetter(c, HEX_UPPER, v)
    ensures v < 16 ==> IsLetter(HexChar(v), HEX_LOWER, v)
  {
    if v < 16 {
      HexRow(v);
      assert v / 16 == 0 && v % 16 == v;
    }
  }

  lemma {:induction false} Base64Row(v: nat)
    requires v < 16
    ensures "ABCDEFGHIJKLMNOP"[v] as int == Base64Char(v)
    ensures "QRSTUVWXYZabcdef"[v] as int == Base64Char(16 + v)
    ensures "ghijklmnopqrstuv"[v] as int == Base64Char(32 + v)
    ensures "wxyz0123456789+/"[v] as int == Base64Char(48 + v)
  {
  }

  lemma {:induction false} Base64Letter(v: nat)
    requires v < 64
    ensures IsLetter(Base64Char(v), BASE64_LETTERS, v)
  {
    hide Base64Char;
    Base64Row(v % 16);
    assert v == v / 16 * 16 + v % 16;
  }

  lemma {:induction false} Base64Alphabet(c: byte, v: nat)
    ensures Base64Value(c) == Some(v) <==> IsLetter(c, BASE64_LETTERS, v)
    ensures v < 64 ==> IsLetter(Base64Char(v), BASE64_LETTERS, v)
  {
    if v < 64 {
      Base64Letter(v);
      Base64CharValue(v);
    }
    if Base64Value(c) == Some(v) {
      Base64ValueChar(c);
    }
  }

  predicate LetterPair(z: byte, lower: char, upper: char) {
    && z == lower as int
    && upper as int == (if z >= 97 then z - 32 else z)
    && (z < 65 || 97 <= z <= 122)
  }

  lemma {:induction false} ZFirst(v: nat)
    requires v < 16
    ensures LetterPair(Z_ALPHABET[v], Z_LOWER[0][v], Z_UPPER[0][v])
  {
    assert Z_LOWER[0] == "ybndrfg8ejkmcpqx" && Z_UPPER[0] == "YBNDRFG8EJKMCPQX";
    assert Z_ALPHABET[..16] == [121, 98, 110, 100, 114, 102, 103, 56, 101, 106, 107, 109, 99, 112, 113, 120];
    assert Z_ALPHABET[v] == Z_ALPHABET[..16][v];
  }

  lemma {:induction false} ZSecond(v: nat)
    requires v < 16
    ensures LetterPair(Z_ALPHABET[16 + v], Z_LOWER[1][v], Z_UPPER[1][v])
  {
    assert Z_LOWER[1] == "ot1uwisza345h769" && Z_UPPER[1] == "OT1UWISZA345H769";
    assert Z_ALPHABET[16..] == [111, 116, 49, 117, 119, 105, 115, 122, 97, 51, 52, 53, 104, 55, 54, 57];
    assert Z_ALPHABET[16 + v] == Z_ALPHABET[16..][v];
  }

  lemma {:induction false} ZLetter(v: nat)
    requires v < 32
    ensures LetterPair(Z_ALPHABET[v], Z_LOWER[v / 16][v % 16], Z_UPPER[v / 16][v % 16])
  {
    hide LetterPair;
    if v < 16 {
      ZFirst(v);
      assert v / 16 == 0 && v % 16 == v;
    } else {
      ZSecond(v - 16);
      assert v / 16 == 1 && v % 16 == v - 16;
    }
  }

  lemma {:induction false} Base32zAlphabet(c: byte, v: nat)
    ensures Base32zValue(c) == Some(v) <==> IsLetter(c, Z_LOWER, v) || IsLetter(c, Z_UPPER, v)
    ensures v < 32 ==> IsLetter(Z_ALPHABET[v], Z_LOWER, v)
  {
    hide Base32zValue;
    if v < 32 {
      ZLetter(v);
      if Lower(c) == Z_ALPHABET[v] {
        Base32zCharValue(v, c);
      }
    }
    if Base32zValue(c) == Some(v) {
      Base32zValueChar(c);
    }
  }

  // ---------- Texts ----------

  /** Every character has a digit value. */
  predicate AllDigits(s: bytes, value: byte -> Option<nat>) {
    forall i :: 0 <= i < |s| ==> value(s[i]).Some?
  }

  function Values(s: bytes, value: byte -> Option<nat>): (vals: seq<nat>)
    requires AllDigits(s, value)
    ensures |vals| == |s|
  {
    seq(|s|, i requires 0 <= i < |s| => value(s[i]).value)
  }

  predicate IsHex(s: bytes) {
    |s| % 2 == 0 && AllDigits(s, HexValue)
  }

  function FromHex(s: bytes): (data: bytes)
    requires IsHex(s)
    ensures |data| == |s| / 2
  {
    FromDigits(Values(s, HexValue), 4)
  }

  /** Lower-case hex, the only case the library prints. */
  function ToHex(data: bytes): (s: bytes)
    ensures |s| == 2 * |data|
  {
    var vals := ToDigits(data, 4);
    assert |vals| == 2 * |data|;
    assert Pow2(4) == 16;
    seq(|vals|, i requires 0 <= i < |vals| => HexChar(vals[i]))
  }

  /** The same text up to the case of its letters. */
  predicate SameButCase(s: bytes, t: bytes) {
    |s| == |t| && forall i :: 0 <= i < |s| ==> Lower(s[i]) == Lower(t[i])
  }

  lemma {:induction false} HexRoundTrip(data: bytes, s: bytes)
    requires SameButCase(s, ToHex(data))
    ensures IsHex(s) && FromHex(s) == data
  {
    hide ToDigits, FromDigits, HexValue, HexChar;
    var vals := ToDigits(data, 4);
    assert Pow2(4) == 16;
    forall i | 0 <= i < |s|
      ensures HexValue(s[i]) == Some(vals[i])
    {
      HexCharValue(vals[i], s[i]);
    }
    assert Values(s, HexValue) == vals;
    FromDigitsToDigits(data, 4);
  }

  /** The bits of a digit string after its last whole byte. */
  function LeftOver(vals: seq<nat>, w: nat): (b: seq<bool>)
    ensures |b| < 8
  {
    var bits := Flatten(vals, w);
    bits[|bits| / 8 * 8..]
  }

  predicate AllClear(b: seq<bool>) {
    forall i :: 0 <= i < |b| ==> !b[i]
  }

  lemma {:induction false} PadBitsUnique(n: nat, w: nat, z: nat)
    requires z < w && (n + z) % w == 0
    ensures PadBits(n, w) == z
  {
    var q, p, z' := (n + z) / w, (n + PadBits(n, w)) / w, PadBits(n, w);
    assert n + z == q * w && n + z' == p * w;
    assert (q - p - 1) * w == z - z' - w && (p - q - 1) * w == z' - z - w;
    SignOfProduct(q - p - 1, w);
    SignOfProduct(p - q - 1, w);
  }

  /** Reading bytes from digits loses nothing exactly if the left-over bits are clear; fewer of
      them than a digit has are all that the last digit may hold in excess. */
  lemma {:induction false} CanonicalDigits(vals: seq<nat>, w: nat)
    requires 0 < w && Digits(vals, w) && |LeftOver(vals, w)| < w
    ensures ToDigits(FromDigits(vals, w), w) == vals <==> AllClear(LeftOver(vals, w))
  {
    hide Group, Flatten, Digits;
    var bits := Flatten(vals, w);
    var n := |bits| / 8 * 8;
    var body, tail := bits[..n], bits[n..];
    assert bits == body + tail;
    var data := Group(body, 8);
    FlattenGroup(body, 8);
    GroupDigits(body);
    GroupFlatten(data, 8, tail);
    assert FromDigits(vals, w) == data;
    assert n + |tail| == |vals| * w + 0;
    DivModUnique(n + |tail|, w, |vals|, 0);
    PadBitsUnique(n, w, |tail|);
    var zeros := seq(|tail|, _ => false);
    assert ToDigits(data, w) == Group(body + zeros, w);
    assert bits + [] == bits;
    GroupFlatten(vals, w, []);
    FlattenGroup(body + zeros, w);
    if AllClear(tail) {
      assert tail == zeros;
    }
    if Group(body + zeros, w) == vals {
      assert body + zeros == body + tail;
      assert tail == (body + zeros)[n..] == zeros;
    }
  }

  /** Digits read as some bytes and printed from them are the same if and only if no bit is lost. */
  lemma {:induction false} ReadsAs(vals: seq<nat>, w: nat, data: bytes)
    requires 0 < w <= 8 && Digits(vals, w) && |LeftOver(vals, w)| < w
    ensures vals == ToDigits(data, w) <==> FromDigits(vals, w) == data && AllClear(LeftOver(vals, w))
  {
    CanonicalDigits(vals, w);
    if vals == ToDigits(data, w) {
      FromDigitsToDigits(data, w);
    }
  }

  /** Bit number `j` of a `w`-bit digit, most significant first. */
  predicate Bit(v: nat, w: nat, j: nat)
    requires j < w
  {
    v / Pow2(w - 1 - j) % 2 == 1
  }

  lemma {:induction false} BitsAt(n: nat, w: nat, j: nat)
    requires j < w
    ensures BitsOf(n, w)[j] <==> Bit(n, w, j)
  {
    if j < w - 1 {
      BitsAt(n / 2, w - 1, j);
      HalfDiv(n, Pow2(w - 2 - j));
    }
  }

  lemma {:induction false} HalfDiv(n: nat, m: nat)
    requires m > 0
    ensures n / (2 * m) == n / 2 / m
  {
    HalfMod(n, m);
    var q, r := n / 2 / m, n / 2 % m;
    assert n / 2 == q * m + r;
    MulAssoc(q, 2, m);
    DivModUnique(n, 2 * m, q, 2 * r + n % 2);
  }

  lemma {:induction false} FlattenAt(vals: seq<nat>, w: nat, i: nat, j: nat)
    requires i < |vals| && j < w
    ensures i * w + j < |vals| * w
    ensures Flatten(vals, w)[i * w + j] == BitsOf(vals[i], w)[j]
  {
    hide Flatten, BitsOf;
    var v, rest := vals[0], vals[1..];
    assert vals == [v] + rest;
    FlattenCons(v, rest, w);
    if i > 0 {
      FlattenAt(rest, w, i - 1, j);
      assert i * w + j == w + ((i - 1) * w + j);
      assert |vals| * w == w + |rest| * w;
    } else {
      assert |vals| * w == w + |rest| * w;
      assert |rest| * w >= 0;
    }
  }

  /** The digits hold the bits of the bytes in their order, most significant first, and then
      zeros. */
  lemma {:induction false} DigitBits(data: bytes, w: nat, i: nat, j: nat)
    requires 0 < w && i < |ToDigits(data, w)| && j < w
    ensures var n := i * w + j;
            Bit(ToDigits(data, w)[i], w, j) <==> n < 8 * |data| && Bit(data[n / 8], 8, n % 8)
  {
    hide Flatten, Group, BitsOf, Bit;
    var vals, n := ToDigits(data, w), i * w + j;
    var bits := Flatten(data, 8);
    var padded := bits + seq(PadBits(|bits|, w), _ => false);
    FlattenGroup(padded, w);
    FlattenAt(vals, w, i, j);
    BitsAt(vals[i], w, j);
    assert padded[n] == Flatten(vals, w)[n];
    if n < 8 * |data| {
      FlattenAt(data, 8, n / 8, n % 8);
      BitsAt(data[n / 8], 8, n % 8);
    }
  }

  lemma {:induction false} GroupDigits(b: seq<bool>)
    ensures Digits(Group(b, 8), 8)
  {
  }

  lemma {:induction false} ClearAppend(b: seq<bool>, last: bool)
    ensures AllClear(b + [last]) <==> AllClear(b) && !last
  {
    var all := b + [last];
    assert all[|b|] == last;
    assert all[..|b|] == b;
    if AllClear(all) {
      forall i | 0 <= i < |b| ensures !b[i] {
        assert all[i] == b[i];
      }
    }
  }

  /** The last `e` bits of a digit are clear exactly if it is a multiple of 2^e. */
  lemma {:induction false} LowBitsClear(v: nat, w: nat, e: nat)
    requires e <= w
    ensures AllClear(BitsOf(v, w)[w - e..]) <==> v % Pow2(e) == 0
  {
    if e > 0 {
      var b, h := BitsOf(v, w), BitsOf(v / 2, w - 1);
      LowBitsClear(v / 2, w - 1, e - 1);
      assert b[w - e..] == h[w - e..] + [v % 2 == 1];
      HalfMod(v, Pow2(e - 1));
      ClearAppend(h[w - e..], v % 2 == 1);
    }
  }

  lemma {:induction false} FlattenLast(vals: seq<nat>, w: nat)
    requires vals != []
    ensures var n := |vals| - 1;
            Flatten(vals, w) == Flatten(vals[..n], w) + BitsOf(vals[n], w)
  {
    var n := |vals| - 1;
    if n > 0 {
      FlattenLast(vals[1..], w);
      assert vals[1..][..n - 1] == vals[..n][1..];
    }
  }

  /** With `e` bits too many, these are the low bits of the last digit. */
  lemma {:induction false} LeftOverOfLast(vals: seq<nat>, w: nat, e: nat)
    requires vals != [] && e <= w && e < 8 && (|vals| * w - e) % 8 == 0 && |vals| * w >= e
    ensures |LeftOver(vals, w)| == e
    ensures AllClear(LeftOver(vals, w)) <==> vals[|vals| - 1] % Pow2(e) == 0
  {
    hide Flatten, BitsOf, AllClear;
    var last := BitsOf(vals[|vals| - 1], w);
    FlattenLast(vals, w);
    var bits := Flatten(vals, w);
    assert |bits| / 8 * 8 == |bits| - e;
    assert bits[|bits| - e..] == last[w - e..];
    LowBitsClear(vals[|vals| - 1], w, e);
  }

  /** Whole bytes regroup into the digits they were read from. */
  lemma {:induction false} ToDigitsFromDigits(vals: seq<nat>, w: nat)
    requires 0 < w <= 8 && Digits(vals, w) && (|vals| * w) % 8 == 0
    ensures ToDigits(FromDigits(vals, w), w) == vals
  {
    CanonicalDigits(vals, w);
  }

  /** The hex texts of a byte string are its printed form up to case, and no others. */
  lemma {:induction false} HexTexts(s: bytes, data: bytes)
    requires IsHex(s)
    ensures FromHex(s) == data <==> SameButCase(s, ToHex(data))
  {
    hide ToDigits, FromDigits;
    assert Pow2(4) == 16;
    if SameButCase(s, ToHex(data)) {
      HexRoundTrip(data, s);
    }
    if FromHex(s) == data {
      var vals := Values(s, HexValue);
      ToDigitsFromDigits(vals, 4);
      forall i | 0 <= i < |s|
        ensures Lower(s[i]) == Lower(ToHex(data)[i])
      {
        assert HexValue(s[i]) == Some(vals[i]);
      }
    }
  }

  lemma {:induction false} HexCharValue(v: nat, c: byte)
    requires v < 16 && Lower(c) == Lower(HexChar(v))
    ensures HexValue(c) == Some(v)
  {
  }

  const EQUALS: byte := 61

  /** The text without the one or two '=' that may complete it to a multiple of four. */
  function StripPadding(s: bytes): (t: bytes)
    ensures |t| <= |s|
  {
    if |s| == 0 || |s| % 4 != 0 || s[|s| - 1] != EQUALS then s
    else if s[|s| - 2] != EQUALS then s[..|s| - 1]
    else s[..|s| - 2]
  }

  predicate IsBase64(s: bytes) {
    |s| % 4 != 1 && AllDigits(StripPadding(s), Base64Value)
  }

  /** Left-over bits after the last whole byte are ignored. */
  function FromBase64(s: bytes): (data: bytes)
    requires IsBase64(s)
    ensures |data| == |StripPadding(s)| * 6 / 8
  {
    FromDigits(Values(StripPadding(s), Base64Value), 6)
  }

  function Base64Chars(data: bytes): (s: bytes)
    ensures |s| == |ToDigits(data, 6)|
  {
    assert Pow2(6) == 64 by { assert Pow2(3) == 8; }
    var vals := ToDigits(data, 6);
    seq(|vals|, i requires 0 <= i < |vals| => Base64Char(vals[i]))
  }

  lemma {:induction false} WholeQuads(n: nat)
    ensures (n + (4 - n % 4) % 4) % 4 == 0
  {
  }

  function ToBase64(data: bytes, padded: bool): (s: bytes)
    ensures padded ==> |s| % 4 == 0
    ensures !padded ==> |s| == |ToDigits(data, 6)|
  {
    var chars := Base64Chars(data);
    WholeQuads(|chars|);
    if padded then chars + seq((4 - |chars| % 4) % 4, _ => EQUALS) else chars
  }

  lemma {:induction false} Base64Length(data: bytes)
    ensures |ToDigits(data, 6)| == (4 * |data| + 2) / 3
    ensures |ToDigits(data, 6)| % 4 != 1
  {
    var n, q, r := |data|, |data| / 3, |data| % 3;
    assert 8 * n == 6 * (4 * q) + 8 * r;
  }

  lemma {:induction false} Base64CharsValues(data: bytes)
    ensures AllDigits(Base64Chars(data), Base64Value)
    ensures Values(Base64Chars(data), Base64Value) == ToDigits(data, 6)
    ensures EQUALS !in Base64Chars(data)
  {
    var vals := ToDigits(data, 6);
    var chars := Base64Chars(data);
    assert Pow2(6) == 64 by { assert Pow2(3) == 8; }
    forall i | 0 <= i < |chars|
      ensures Base64Value(chars[i]) == Some(vals[i])
    {
      Base64CharValue(vals[i]);
    }
    assert Values(chars, Base64Value) == vals;
  }

  lemma {:induction false} Base64CharValue(v: nat)
    requires v < 64
    ensures Base64Value(Base64Char(v)) == Some(v)
  {
  }

  lemma {:induction false} Base64Digits(chars: bytes, data: bytes)
    requires AllDigits(chars, Base64Value)
    ensures chars == Base64Chars(data) <==> Values(chars, Base64Value) == ToDigits(data, 6)
  {
    hide ToDigits, Base64Value, Base64Char;
    Base64CharsValues(data);
    if Values(chars, Base64Value) == ToDigits(data, 6) {
      forall i | 0 <= i < |chars| ensures chars[i] == Base64Chars(data)[i] {
        Base64ValueChar(chars[i]);
      }
    }
  }

  /** The digit texts of a byte string: what is printed, if the left-over bits are clear. */
  lemma {:induction false} Base64Texts(chars: bytes, data: bytes)
    requires AllDigits(chars, Base64Value) && |LeftOver(Values(chars, Base64Value), 6)| < 6
    ensures chars == Base64Chars(data)
            <==> && FromDigits(Values(chars, Base64Value), 6) == data
                 && AllClear(LeftOver(Values(chars, Base64Value), 6))
  {
    hide ToDigits, FromDigits, LeftOver, AllClear, Base64Value, Base64Chars;
    assert Pow2(6) == 64 by { assert Pow2(3) == 8; }
    Base64Digits(chars, data);
    ReadsAs(Values(chars, Base64Value), 6, data);
  }

  lemma {:induction false} Base64ValueChar(c: byte)
    requires Base64Value(c).Some?
    ensures Base64Char(Base64Value(c).value) == c
  {
  }

  lemma {:induction false} StripSome(chars: bytes, n: nat)
    requires chars != [] && chars[|chars| - 1] != EQUALS && (|chars| + n) % 4 == 0
    requires n == 1 || n == 2
    ensures StripPadding(chars + seq(n, _ => EQUALS)) == chars
  {
    var s := chars + seq(n, _ => EQUALS);
    assert s[|s| - 1] == EQUALS;
    assert s[|s| - 2] == if n == 1 then chars[|chars| - 1] else EQUALS;
    assert s[..|chars|] == chars;
  }

  lemma {:induction false} StripAdded(chars: bytes)
    requires |chars| % 4 != 1 && EQUALS !in chars
    ensures StripPadding(chars) == chars
    ensures StripPadding(chars + seq((4 - |chars| % 4) % 4, _ => EQUALS)) == chars
  {
    if chars != [] {
      assert chars[|chars| - 1] in chars;
    }
    var n := (4 - |chars| % 4) % 4;
    if n == 0 {
      assert chars + seq(n, _ => EQUALS) == chars;
    } else {
      StripSome(chars, n);
    }
  }

  /** Every byte string survives base64, padded or not. */
  lemma {:induction false} Base64RoundTrip(data: bytes, padded: bool)
    ensures IsBase64(ToBase64(data, padded))
    ensures FromBase64(ToBase64(data, padded)) == data
  {
    hide ToDigits, FromDigits, StripPadding, Base64Value, Base64Char;
    var s, chars := ToBase64(data, padded), Base64Chars(data);
    assert |s| % 4 != 1 && |chars| % 4 != 1 by { Base64Length(data); }
    Base64CharsValues(data);
    assert StripPadding(s) == chars by { StripAdded(chars); }
    FromDigitsToDigits(data, 6);
  }

  predicate IsBase32z(s: bytes) {
    |s| % 8 != 1 && |s| % 8 != 3 && |s| % 8 != 6 && AllDigits(s, Base32zValue)
  }

  function FromBase32z(s: bytes): (data: bytes)
    requires IsBase32z(s)
    ensures |data| == |s| * 5 / 8
  {
    FromDigits(Values(s, Base32zValue), 5)
  }

  function ToBase32z(data: bytes): (s: bytes) {
    assert Pow2(5) == 32 by { assert Pow2(3) == 8; }
    var vals := ToDigits(data, 5);
    seq(|vals|, i requires 0 <= i < |vals| => Z_ALPHABET[vals[i]])
  }

  lemma {:induction false} Base32zCharValue(v: nat, c: byte)
    requires v < 32 && Lower(c) == Z_ALPHABET[v]
    ensures Base32zValue(c) == Some(v)
  {
  }

  lemma {:induction false} Base32zDigits(s: bytes, data: bytes)
    requires AllDigits(s, Base32zValue)
    ensures SameButCase(s, ToBase32z(data)) <==> Values(s, Base32zValue) == ToDigits(data, 5)
  {
    assert Pow2(5) == 32 by { assert Pow2(3) == 8; }
    hide ToDigits, Base32zValue, Pow2, Lower;
    var vals, printed := Values(s, Base32zValue), ToDigits(data, 5);
    if SameButCase(s, ToBase32z(data)) {
      forall i | 0 <= i < |s| ensures vals[i] == printed[i] {
        PrintedLetter(printed[i]);
        Base32zCharValue(printed[i], s[i]);
      }
    }
    if vals == printed {
      forall i | 0 <= i < |s| ensures Lower(s[i]) == Lower(ToBase32z(data)[i]) {
        Base32zValueChar(s[i]);
      }
    }
  }

  lemma {:induction false} PrintedLetter(v: nat)
    requires v < 32
    ensures Lower(Z_ALPHABET[v]) == Z_ALPHABET[v]
  {
  }

  /** The z-base-32 texts of a byte string: what is printed, up to case, if the left-over bits are
      clear. */
  lemma {:induction false} Base32zTexts(s: bytes, data: bytes)
    requires IsBase32z(s) && |LeftOver(Values(s, Base32zValue), 5)| < 5
    ensures SameButCase(s, ToBase32z(data))
            <==> FromBase32z(s) == data && AllClear(LeftOver(Values(s, Base32zValue), 5))
  {
    hide ToDigits, FromDigits, LeftOver, AllClear, Base32zValue, ToBase32z, SameButCase;
    assert Pow2(5) == 32 by { assert Pow2(3) == 8; }
    Base32zDigits(s, data);
    ReadsAs(Values(s, Base32zValue), 5, data);
  }

  lemma {:induction false} Base32zValueChar(c: byte)
    requires Base32zValue(c).Some?
    ensures Lower(c) == Lower(Z_ALPHABET[Base32zValue(c).value])
  {
  }

  lemma {:induction false} Base32zLength(data: bytes)
    ensures |ToDigits(data, 5)| == (8 * |data| + 4) / 5
    ensures var m := |ToDigits(data, 5)| % 8; m != 1 && m != 3 && m != 6
  {
    var n, q, r := |data|, |data| / 5, |data| % 5;
    assert 8 * n == 5 * (8 * q) + 8 * r;
  }

  lemma {:induction false} Base32zRoundTrip(data: bytes, s: bytes)
    requires SameButCase(s, ToBase32z(data))
    ensures IsBase32z(s) && FromBase32z(s) == data
  {
    hide ToDigits, FromDigits, Base32zValue;
    var vals := ToDigits(data, 5);
    assert Pow2(5) == 32 by { assert Pow2(3) == 8; }
    hide Pow2;
    Base32zLength(data);
    forall i | 0 <= i < |s|
      ensures Base32zValue(s[i]) == Some(vals[i])
    {
      assert Lower(Z_ALPHABET[vals[i]]) == Z_ALPHABET[vals[i]];
      Base32zCharValue(vals[i], s[i]);
    }
    assert Values(s, Base32zValue) == vals;
    FromDigitsToDigits(data, 5);
  }

  // ---------- Accepted texts ----------

  ghost predicate HasLetter(alphabet: seq<string>, other: seq<string>, c: byte) {
    exists v: nat :: IsLetter(c, alphabet, v) || IsLetter(c, other, v)
  }

  ghost predicate AllLetters(s: bytes, alphabet: seq<string>, other: seq<string>) {
    forall i :: 0 <= i < |s| ==> HasLetter(alphabet, other, s[i])
  }

  lemma {:induction false} NotALetter()
    ensures forall v: nat :: !IsLetter(EQUALS, BASE64_LETTERS, v) && !IsLetter(EQUALS, [], v)
  {
    forall v: nat ensures !IsLetter(EQUALS, BASE64_LETTERS, v) && !IsLetter(EQUALS, [], v) {
      Base64Alphabet(EQUALS, v);
    }
  }

  /** Digit values are letters of two alphabets, so digit texts are texts of their letters. */
  lemma {:induction false} LettersAreDigits(
      s: bytes, value: byte -> Option<nat>, alphabet: seq<string>, other: seq<string>)
    requires forall c: byte, v: nat :: value(c) == Some(v) <==> IsLetter(c, alphabet, v) || IsLetter(c, other, v)
    ensures AllDigits(s, value) <==> AllLetters(s, alphabet, other)
  {
    hide IsLetter;
    if AllDigits(s, value) {
      forall i | 0 <= i < |s|
        ensures HasLetter(alphabet, other, s[i])
      {
        var v := value(s[i]).value;
        assert value(s[i]) == Some(v);
        assert IsLetter(s[i], alphabet, v) || IsLetter(s[i], other, v);
      }
    }
    if AllLetters(s, alphabet, other) {
      forall i | 0 <= i < |s| ensures value(s[i]).Some? {
        assert HasLetter(alphabet, other, s[i]);
        var v: nat :| IsLetter(s[i], alphabet, v) || IsLetter(s[i], other, v);
        assert value(s[i]) == Some(v);
      }
    }
  }

  lemma {:induction false} HexLetters(s: bytes)
    ensures AllDigits(s, HexValue) <==> AllLetters(s, HEX_LOWER, HEX_UPPER)
  {
    hide IsLetter;
    forall c: byte, v: nat
      ensures HexValue(c) == Some(v) <==> IsLetter(c, HEX_LOWER, v) || IsLetter(c, HEX_UPPER, v)
    {
      HexAlphabet(c, v);
    }
    LettersAreDigits(s, HexValue, HEX_LOWER, HEX_UPPER);
  }

  lemma {:induction false} Base64Letters(s: bytes)
    ensures AllDigits(s, Base64Value) <==> AllLetters(s, BASE64_LETTERS, [])
  {
    forall c: byte, v: nat
      ensures Base64Value(c) == Some(v) <==> IsLetter(c, BASE64_LETTERS, v) || IsLetter(c, [], v)
    {
      hide Base64Value;
      Base64Alphabet(c, v);
    }
    LettersAreDigits(s, Base64Value, BASE64_LETTERS, []);
  }

  lemma {:induction false} Base32zLetters(s: bytes)
    ensures AllDigits(s, Base32zValue) <==> AllLetters(s, Z_LOWER, Z_UPPER)
  {
    hide IsLetter;
    forall c: byte, v: nat
      ensures Base32zValue(c) == Some(v) <==> IsLetter(c, Z_LOWER, v) || IsLetter(c, Z_UPPER, v)
    {
      Base32zAlphabet(c, v);
    }
    LettersAreDigits(s, Base32zValue, Z_LOWER, Z_UPPER);
  }

  /** Base64 texts: letters, of which no single one is left after the last four, or groups of four
      of which the last may end in one or two '='. */
  lemma {:induction false} Base64Accepted(s: bytes)
    ensures IsBase64(s)
            <==> || (|s| % 4 != 1 && AllLetters(s, BASE64_LETTERS, []))
                 || (&& |s| > 0 && |s| % 4 == 0 && s[|s| - 1] == 0x3D
                     && (|| AllLetters(s[..|s| - 1], BASE64_LETTERS, [])
                         || (s[|s| - 2] == 0x3D && AllLetters(s[..|s| - 2], BASE64_LETTERS, []))))
  {
    hide Base64Value, IsLetter, AllLetters, AllDigits;
    Base64Letters(s);
    if |s| > 0 && |s| % 4 == 0 {
      Base64Letters(s[..|s| - 1]);
      Base64Letters(s[..|s| - 2]);
      if s[|s| - 1] == EQUALS {
        EqualsIsNoDigit(s, |s| - 1);
        if s[|s| - 2] == EQUALS {
          EqualsIsNoDigit(s[..|s| - 1], |s| - 2);
        }
      }
    }
  }

  lemma {:induction false} EqualsIsNoDigit(s: bytes, i: nat)
    requires i < |s| && s[i] == EQUALS
    ensures !AllDigits(s, Base64Value)
  {
  }

  lemma {:induction false} HexAccepted(s: bytes)
    ensures IsHex(s) <==> |s| % 2 == 0 && AllLetters(s, HEX_LOWER, HEX_UPPER)
  {
    HexLetters(s);
  }

  lemma {:induction false} Base32zAccepted(s: bytes)
    ensures IsBase32z(s) <==> |s| % 8 !in {1, 3, 6} && AllLetters(s, Z_LOWER, Z_UPPER)
  {
    Base32zLetters(s);
  }
}
