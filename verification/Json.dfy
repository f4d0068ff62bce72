/** JSON (RFC 8259) on UTF-8 bytes. `DumpValue` is the compact printer, which lists the members of
    an object in key order; `Parse` accepts white space, every escape and a byte order mark, and
    the last of two equal keys wins. Numbers are kept as text. */
module Json {
  import opened Wrappers
  import opened Bytes
  import opened Encodings

  datatype Value =
    | Null
    | Bool(b: bool)
    | Number(digits: bytes)
    | String(text: bytes)
    | Array(items: seq<Value>)
    | Object(members: Members)

  datatype Member = Member(key: bytes, value: Value)

  /** The members in the order of an ordered map. */
  type Members = seq<Member>

  // ---------- Ordered maps ----------

  /** Lexicographic order on strings. */
  predicate Less(a: bytes, b: bytes) {
    b != [] && (a == [] || a[0] < b[0] || (a[0] == b[0] && Less(a[1..], b[1..])))
  }

  lemma {:induction false} LessTransitive(a: bytes, b: bytes, c: bytes)
    requires Less(a, b) && Less(b, c)
    ensures Less(a, c)
  {
    if a != [] && a[0] == b[0] == c[0] {
      LessTransitive(a[1..], b[1..], c[1..]);
    }
  }

  lemma {:induction false} LessTotal(a: bytes, b: bytes)
    ensures a == b || Less(a, b) || Less(b, a)
    ensures !(Less(a, b) && Less(b, a))
    ensures !Less(a, a)
  {
    if a != [] {
      LessTotal(a[1..], a[1..]);
    }
    if a != [] && b != [] && a[0] == b[0] {
      LessTotal(a[1..], b[1..]);
      if a[1..] == b[1..] {
        assert a == [a[0]] + a[1..] && b == [b[0]] + b[1..];
      }
    }
  }

  predicate Ordered(o: Members) {
    forall i, j :: 0 <= i < j < |o| ==> Less(o[i].key, o[j].key)
  }

  /** Insert or overwrite. */
  function Put(o: Members, key: bytes, value: Value): (r: Members) {
    if o == [] then [Member(key, value)]
    else if o[0].key == key then [Member(key, value)] + o[1..]
    else if Less(key, o[0].key) then [Member(key, value)] + o
    else [o[0]] + Put(o[1..], key, value)
  }

  function Find(o: Members, key: bytes): (r: Option<Value>) {
    if o == [] then None
    else if o[0].key == key then Some(o[0].value)
    else Find(o[1..], key)
  }

  lemma {:induction false} PutKeys(o: Members, key: bytes, value: Value)
    ensures forall m :: m in Put(o, key, value) ==> m in o || m == Member(key, value)
  {
    if o != [] {
      PutKeys(o[1..], key, value);
    }
  }

  lemma {:induction false} PutOrdered(o: Members, key: bytes, value: Value)
    requires Ordered(o)
    ensures Ordered(Put(o, key, value))
  {
    if o != [] {
      var rest := o[1..];
      LessTotal(key, o[0].key);
      if o[0].key == key {
      } else if Less(key, o[0].key) {
        forall j | 0 <= j < |o|
          ensures Less(key, o[j].key)
        {
          if j > 0 {
            LessTransitive(key, o[0].key, o[j].key);
          }
        }
      } else {
        PutOrdered(rest, key, value);
        PutKeys(rest, key, value);
        var r := Put(rest, key, value);
        forall j | 0 <= j < |r|
          ensures Less(o[0].key, r[j].key)
        {
          assert r[j] in r;
        }
      }
    }
  }

  /** A map looks up what was last put. */
  lemma {:induction false} FindPut(o: Members, key: bytes, value: Value, k: bytes)
    requires Ordered(o)
    ensures Find(Put(o, key, value), k) == if k == key then Some(value) else Find(o, k)
  {
    if o != [] {
      var rest := o[1..];
      assert forall m: Member, os: Members :: ([m] + os)[1..] == os;
      if o[0].key != key && !Less(key, o[0].key) {
        FindPut(rest, key, value, k);
      } else if Less(key, o[0].key) && k == key {
        LessTotal(key, key);
      }
    }
  }

  /** Looking up finds exactly the members that are there. */
  lemma {:induction false} FindMember(o: Members, key: bytes, value: Value)
    requires Ordered(o)
    ensures Find(o, key) == Some(value) <==> Member(key, value) in o
  {
    if o != [] {
      var rest := o[1..];
      FindMember(rest, key, value);
      assert o == [o[0]] + rest;
      if o[0].key == key && Member(key, value) in rest {
        var i :| 0 <= i < |rest| && rest[i] == Member(key, value);
        assert Less(o[0].key, o[i + 1].key);
        LessTotal(key, key);
        assert false;
      }
    }
  }

  /** Putting a key above all others appends it. */
  lemma {:induction false} PutLast(o: Members, key: bytes, value: Value)
    requires forall i :: 0 <= i < |o| ==> Less(o[i].key, key)
    ensures Put(o, key, value) == o + [Member(key, value)]
  {
    if o != [] {
      LessTotal(o[0].key, key);
      LessTotal(key, key);
      PutLast(o[1..], key, value);
      assert o == [o[0]] + o[1..];
    }
  }

  lemma {:induction false} PutBetween(m: Member, n: Member, key: bytes, value: Value)
    requires Less(m.key, key) && Less(key, n.key)
    ensures Put([m, n], key, value) == [m, Member(key, value), n]
  {
    LessTotal(m.key, key);
    LessTotal(key, n.key);
    assert [m, n][1..] == [n];
    assert Put([n], key, value) == [Member(key, value), n];
  }

  /** Two new members, and a third one untouched. */
  lemma {:induction false} PutTwo(o: Members, k: bytes, v: Value, e: bytes, w: Value, d: bytes)
    requires Ordered(o)
    requires k != e && k != d && e != d
    ensures var r := Put(Put(o, k, v), e, w);
            && Ordered(r)
            && Find(r, k) == Some(v) && Find(r, e) == Some(w) && Find(r, d) == Find(o, d)
  {
    var o1 := Put(o, k, v);
    PutOrdered(o, k, v);
    PutOrdered(o1, e, w);
    FindPut(o, k, v, k);
    FindPut(o, k, v, d);
    FindPut(o1, e, w, k);
    FindPut(o1, e, w, e);
    FindPut(o1, e, w, d);
  }

  // ---------- Characters ----------

  const QUOTE: byte := 34
  const COMMA: byte := 44
  const COLON: byte := 58
  const OPEN_BRACKET: byte := 91
  const BACKSLASH: byte := 92
  const CLOSE_BRACKET: byte := 93
  const LETTER_U: byte := 117
  const OPEN_BRACE: byte := 123
  const CLOSE_BRACE: byte := 125

  /** Text that is printed without any escape. */
  predicate PlainText(s: bytes) {
    forall i :: 0 <= i < |s| ==> 32 <= s[i] < 128 && s[i] != QUOTE && s[i] != BACKSLASH
  }

  /** The letter after a backslash that stands for `c`, if there is one. */
  function ShortEscape(c: byte): (e: Option<byte>) {
    match c
    case 34 => Some(34)
    case 92 => Some(92)
    case 8 => Some(98)
    case 9 => Some(116)
    case 10 => Some(110)
    case 12 => Some(102)
    case 13 => Some(114)
    case _ => None
  }

  function ShortUnescape(e: byte): (c: Option<byte>) {
    match e
    case 34 => Some(34)
    case 92 => Some(92)
    case 47 => Some(47)
    case 98 => Some(8)
    case 116 => Some(9)
    case 110 => Some(10)
    case 102 => Some(12)
    case 114 => Some(13)
    case _ => None
  }

  function EscapeChar(c: byte): (t: bytes)
    ensures |t| > 0
  {
    match ShortEscape(c)
    case Some(e) => [BACKSLASH, e]
    case None =>
      if c < 32 then [BACKSLASH, LETTER_U, 48, 48, HexChar(c / 16), HexChar(c % 16)] else [c]
  }

  function Escape(s: bytes): (t: bytes) {
    if s == [] then [] else EscapeChar(s[0]) + Escape(s[1..])
  }

  // ---------- UTF-8 (RFC 3629 section 4) ----------

  predicate Continues(c: byte, lo: nat, hi: nat) { lo <= c <= hi }

  /** The length of the well-formed character that the text starts with. */
  function CharLength(s: bytes): (n: Option<nat>)
    requires s != []
    ensures n.Some? ==> 1 <= n.value <= 4 && n.value <= |s|
  {
    var c := s[0];
    var lo := if c == 0xE0 then 0xA0 else if c == 0xF0 then 0x90 else 0x80;
    var hi := if c == 0xED then 0x9F else if c == 0xF4 then 0x8F else 0xBF;
    if c < 0x80 then Some(1)
    else if 0xC2 <= c <= 0xDF && |s| >= 2 && Continues(s[1], lo, hi) then Some(2)
    else if 0xE0 <= c <= 0xEF && |s| >= 3 && Continues(s[1], lo, hi) && Continues(s[2], 0x80, 0xBF) then Some(3)
    else if 0xF0 <= c <= 0xF4 && |s| >= 4 && Continues(s[1], lo, hi)
            && Continues(s[2], 0x80, 0xBF) && Continues(s[3], 0x80, 0xBF) then Some(4)
    else None
  }

  predicate Utf8(s: bytes) {
    s == [] || (CharLength(s).Some? && Utf8(s[CharLength(s).value..]))
  }

  function Tail(n: nat): (c: byte)
    ensures 0x80 <= c <= 0xBF
  {
    0x80 + n % 64
  }

  function EncodeChar(code: nat): (s: bytes)
    requires code < 0x11_0000
    ensures |s| > 0
  {
    if code < 0x80 then [code]
    else if code < 0x800 then [0xC0 + code / 64, Tail(code)]
    else if code < 0x1_0000 then [0xE0 + code / 64 / 64, Tail(code / 64), Tail(code)]
    else [0xF0 + code / 64 / 64 / 64, Tail(code / 64 / 64), Tail(code / 64), Tail(code)]
  }

  /** Every code point but the surrogates has a well-formed encoding. */
  lemma {:induction false} EncodedIsUtf8(code: nat)
    requires code < 0x11_0000 && !(0xD800 <= code < 0xE000)
    ensures CharLength(EncodeChar(code)) == Some(|EncodeChar(code)|)
  {
    var a := code / 64;
    var b := a / 64;
    if 0x1_0000 <= code {
      assert 0x10 <= b <= 0x10F && a == b * 64 + a % 64;
      assert b / 64 == 0 ==> Tail(b) >= 0x90;
      assert b / 64 == 4 ==> Tail(b) <= 0x8F;
    } else if 0x800 <= code {
      assert 0x20 <= a < 0x400 && a == b * 64 + a % 64;
      assert b == 0 ==> Tail(a) >= 0xA0;
      assert b == 13 ==> Tail(a) <= 0x9F;
    }
  }

  /** The payload bits of the continuing bytes, below those of the first. */
  function CodeOf(first: nat, s: bytes): (code: nat)
    decreases |s|
  {
    if s == [] then first else CodeOf(first * 64 + Payload(s[0]), s[1..])
  }

  function Payload(c: byte): (n: nat) { c % 64 }

  /** The encoding stands for its code point: the first byte carries the highest bits. */
  lemma {:induction false} CodeOfEncoded(code: nat)
    requires code < 0x11_0000
    ensures var s := EncodeChar(code);
            var mark := if |s| == 1 then 0 else if |s| == 2 then 0xC0 else if |s| == 3 then 0xE0 else 0xF0;
            s[0] >= mark && CodeOf(s[0] - mark, s[1..]) == code
  {
    var a := code / 64;
    var b := a / 64;
    var s := EncodeChar(code);
    hide Tail;
    if |s| == 2 {
      AppendPayload(code);
      assert s[1..] == [Tail(code)];
      CodeOfOne(a, Tail(code));
    } else if |s| == 3 {
      AppendPayload(code); AppendPayload(a);
      assert s[1..] == [Tail(a)] + [Tail(code)];
      CodeOfMore(b, Tail(a), [Tail(code)]);
      CodeOfOne(a, Tail(code));
    } else if |s| == 4 {
      AppendPayload(code); AppendPayload(a); AppendPayload(b);
      assert s[1..] == [Tail(b)] + ([Tail(a)] + [Tail(code)]);
      CodeOfMore(b / 64, Tail(b), [Tail(a)] + [Tail(code)]);
      CodeOfMore(b, Tail(a), [Tail(code)]);
      CodeOfOne(a, Tail(code));
    }
  }

  lemma {:induction false} AppendPayload(n: nat)
    ensures n / 64 * 64 + Payload(Tail(n)) == n
  {
  }

  lemma {:induction false} CodeOfMore(first: nat, c: byte, s: bytes)
    ensures CodeOf(first, [c] + s) == CodeOf(first * 64 + Payload(c), s)
  {
    assert ([c] + s)[1..] == s;
  }

  lemma {:induction false} CodeOfOne(first: nat, c: byte)
    ensures CodeOf(first, [c]) == first * 64 + Payload(c)
  {
    assert [c][1..] == [];
  }

  // ---------- Printing ----------

  function DumpString(s: bytes): (t: bytes)
    ensures |t| > 0 && t[0] == QUOTE
  {
    [QUOTE] + Escape(s) + [QUOTE]
  }

  const NULL_TEXT: bytes := [110, 117, 108, 108]
  const TRUE_TEXT: bytes := [116, 114, 117, 101]
  const FALSE_TEXT: bytes := [102, 97, 108, 115, 101]

  function DumpValue(v: Value): (t: bytes) {
    match v
    case Null => NULL_TEXT
    case Bool(b) => if b then TRUE_TEXT else FALSE_TEXT
    case Number(digits) => digits
    case String(text) => DumpString(text)
    case Array(items) =>
      [OPEN_BRACKET] + if items == [] then [CLOSE_BRACKET] else DumpValue(items[0]) + DumpItems(items[1..])
    case Object(members) =>
      [OPEN_BRACE] + if members == [] then [CLOSE_BRACE] else DumpMember(members[0]) + DumpTail(members[1..])
  }

  /** The items after the first, and the closing bracket. */
  function DumpItems(items: seq<Value>): (t: bytes)
    ensures |t| > 0 && t[0] == if items == [] then CLOSE_BRACKET else COMMA
  {
    if items == [] then [CLOSE_BRACKET] else [COMMA] + (DumpValue(items[0]) + DumpItems(items[1..]))
  }

  function DumpMember(m: Member): (t: bytes) {
    DumpString(m.key) + [COLON] + DumpValue(m.value)
  }

  /** The members after the first, and the closing brace. */
  function DumpTail(o: Members): (t: bytes)
    ensures |t| > 0 && t[0] == if o == [] then CLOSE_BRACE else COMMA
  {
    if o == [] then [CLOSE_BRACE] else [COMMA] + (DumpMember(o[0]) + DumpTail(o[1..]))
  }

  function Dump(o: Members): (t: bytes) {
    DumpValue(Object(o))
  }

  lemma {:induction false} EscapePlain(s: bytes)
    requires PlainText(s)
    ensures Escape(s) == s
  {
    if s != [] {
      assert s == [s[0]] + s[1..];
      assert EscapeChar(s[0]) == [s[0]];
      EscapePlain(s[1..]);
    }
  }

  lemma {:induction false} PlainIsUtf8(s: bytes)
    requires PlainText(s)
    ensures Utf8(s)
  {
    if s != [] {
      PlainIsUtf8(s[1..]);
    }
  }

  /** A string member without escapes. */
  predicate PlainMember(m: Member) {
    PlainText(m.key) && m.value.String? && PlainText(m.value.text)
  }

  /** Its printed size: quotes and colon take five bytes. */
  lemma {:induction false} PlainMemberSize(m: Member)
    requires PlainMember(m)
    ensures |DumpMember(m)| == |m.key| + |m.value.text| + 5
  {
    EscapePlain(m.key);
    EscapePlain(m.value.text);
  }

  lemma {:induction false} DumpSizes(a: Member, b: Member, c: Member)
    requires PlainMember(a) && PlainMember(b) && PlainMember(c)
    ensures |Dump([a, b])| == |a.key| + |a.value.text| + |b.key| + |b.value.text| + 13
    ensures |Dump([a, b, c])|
         == |a.key| + |a.value.text| + |b.key| + |b.value.text| + |c.key| + |c.value.text| + 19
  {
    PlainMemberSize(a); PlainMemberSize(b); PlainMemberSize(c);
    hide DumpMember;
    assert [a, b][1..] == [b] && [b][1..] == [];
    assert [a, b, c][1..] == [b, c] && [b, c][1..] == [c] && [c][1..] == [];
    assert |DumpTail([b])| == 2 + |DumpMember(b)|;
    assert |DumpTail([c])| == 2 + |DumpMember(c)|;
    assert |DumpTail([b, c])| == 1 + |DumpMember(b)| + |DumpTail([c])|;
  }

  // ---------- Parsing ----------

  /** A parsed value and the text after it. */
  datatype Parsed<+T> = Fail | Done(value: T, rest: bytes)

  predicate IsSpace(c: byte) {
    c == 32 || c == 9 || c == 10 || c == 13
  }

  function SkipSpace(s: bytes): (t: bytes)
    ensures |t| <= |s|
  {
    if s != [] && IsSpace(s[0]) then SkipSpace(s[1..]) else s
  }

  /** Four hex digits. */
  function HexCode(s: bytes): (code: Option<nat>)
    ensures code.Some? ==> |s| >= 4 && code.value < 0x1_0000
  {
    if |s| < 4 then None
    else
      match (HexValue(s[0]), HexValue(s[1]), HexValue(s[2]), HexValue(s[3]))
      case (Some(a), Some(b), Some(c), Some(d)) => Some(((a * 16 + b) * 16 + c) * 16 + d)
      case _ => None
  }

  /** After backslash and u: a code point, or two surrogates that form one. */
  function ParseUnicode(s: bytes): (p: Parsed<bytes>)
    ensures p.Done? ==> |p.rest| < |s|
  {
    match HexCode(s)
    case None => Fail
    case Some(high) =>
      if 0xDC00 <= high < 0xE000 then Fail
      else if 0xD800 <= high < 0xDC00 then
        if |s| < 6 || s[4] != BACKSLASH || s[5] != LETTER_U then Fail
        else
          match HexCode(s[6..])
          case None => Fail
          case Some(low) =>
            if 0xDC00 <= low < 0xE000
            then Done(EncodeChar(0x1_0000 + (high - 0xD800) * 1024 + (low - 0xDC00)), s[10..])
            else Fail
      else Done(EncodeChar(high), s[4..])
  }

  /** One character of a string body; control characters must be escaped. */
  function ParseChar(s: bytes): (p: Parsed<bytes>)
    requires s != [] && s[0] != QUOTE
    ensures p.Done? ==> |p.rest| < |s|
  {
    if s[0] == BACKSLASH then
      if |s| < 2 then Fail
      else if s[1] == LETTER_U then ParseUnicode(s[2..])
      else
        match ShortUnescape(s[1])
        case Some(c) => Done([c], s[2..])
        case None => Fail
    else if s[0] < 32 then Fail
    else
      match CharLength(s)
      case Some(n) => Done(s[..n], s[n..])
      case None => Fail
  }

  /** The rest of a string after its opening quote. */
  function ParseBody(s: bytes): (p: Parsed<bytes>)
    ensures p.Done? ==> |p.rest| < |s|
    decreases |s|
  {
    if s == [] then Fail
    else if s[0] == QUOTE then Done([], s[1..])
    else
      match ParseChar(s)
      case Fail => Fail
      case Done(c, rest) =>
        match ParseBody(rest)
        case Fail => Fail
        case Done(cs, rest') => Done(c + cs, rest')
  }

  function ParseString(s: bytes): (p: Parsed<bytes>)
    ensures p.Done? ==> |p.rest| < |s|
  {
    if s == [] || s[0] != QUOTE then Fail else ParseBody(s[1..])
  }

  predicate IsDigit(c: byte) { 48 <= c <= 57 }

  function SkipDigits(s: bytes): (t: bytes)
    ensures |t| <= |s|
  {
    if s != [] && IsDigit(s[0]) then SkipDigits(s[1..]) else s
  }

  /** The text after one or more digits. */
  function AfterDigits(s: bytes): (t: Option<bytes>)
    ensures t.Some? ==> |t.value| < |s|
  {
    if s != [] && IsDigit(s[0]) then Some(SkipDigits(s[1..])) else None
  }

  /** Zero, or digits that do not start with zero. */
  function AfterInteger(s: bytes): (t: Option<bytes>)
    ensures t.Some? ==> |t.value| < |s|
  {
    if s != [] && s[0] == 48 then Some(s[1..]) else AfterDigits(s)
  }

  function AfterFraction(s: bytes): (t: Option<bytes>)
    ensures t.Some? ==> |t.value| <= |s|
  {
    if s != [] && s[0] == 46 then AfterDigits(s[1..]) else Some(s)
  }

  function AfterExponent(s: bytes): (t: Option<bytes>)
    ensures t.Some? ==> |t.value| <= |s|
  {
    if s != [] && (s[0] == 69 || s[0] == 101) then
      AfterDigits(if |s| > 1 && (s[1] == 43 || s[1] == 45) then s[2..] else s[1..])
    else Some(s)
  }

  /** The text after a number. */
  function AfterNumber(s: bytes): (t: Option<bytes>)
    ensures t.Some? ==> |t.value| < |s|
  {
    match AfterInteger(if s != [] && s[0] == 45 then s[1..] else s)
    case None => None
    case Some(t) =>
      match AfterFraction(t)
      case None => None
      case Some(u) => AfterExponent(u)
  }

  predicate StartsWith(s: bytes, word: bytes) {
    |word| <= |s| && s[..|word|] == word
  }

  function ParseWord(s: bytes): (p: Parsed<Value>)
    ensures p.Done? ==> |p.rest| < |s|
  {
    if StartsWith(s, NULL_TEXT) then Done(Null, s[4..])
    else if StartsWith(s, TRUE_TEXT) then Done(Bool(true), s[4..])
    else if StartsWith(s, FALSE_TEXT) then Done(Bool(false), s[5..])
    else
      match AfterNumber(s)
      case Some(t) => Done(Number(s[..|s| - |t|]), t)
      case None => Fail
  }

  function ParseValue(s: bytes): (p: Parsed<Value>)
    ensures p.Done? ==> |p.rest| < |s|
    decreases |s|, 0
  {
    var t := SkipSpace(s);
    if t == [] then Fail
    else if t[0] == QUOTE then
      match ParseString(t)
      case Done(text, rest) => Done(String(text), rest)
      case Fail => Fail
    else if t[0] == OPEN_BRACKET then
      var u := SkipSpace(t[1..]);
      if u != [] && u[0] == CLOSE_BRACKET then Done(Array([]), u[1..])
      else
        match ParseItems(t[1..], [])
        case Done(items, rest) => Done(Array(items), rest)
        case Fail => Fail
    else if t[0] == OPEN_BRACE then
      var u := SkipSpace(t[1..]);
      if u != [] && u[0] == CLOSE_BRACE then Done(Object([]), u[1..])
      else
        match ParseMembers(t[1..], [])
        case Done(members, rest) => Done(Object(members), rest)
        case Fail => Fail
    else ParseWord(t)
  }

  /** Values separated by commas up to the closing bracket, appended to `done`. */
  function ParseItems(s: bytes, done: seq<Value>): (p: Parsed<seq<Value>>)
    ensures p.Done? ==> |p.rest| < |s|
    decreases |s|, 1
  {
    match ParseValue(s)
    case Fail => Fail
    case Done(v, t) =>
      var u := SkipSpace(t);
      if u == [] then Fail
      else if u[0] == COMMA then ParseItems(u[1..], done + [v])
      else if u[0] == CLOSE_BRACKET then Done(done + [v], u[1..])
      else Fail
  }

  function ParseMember(s: bytes): (p: Parsed<Member>)
    ensures p.Done? ==> |p.rest| < |s|
    decreases |s|, 0
  {
    match ParseString(SkipSpace(s))
    case Fail => Fail
    case Done(key, t) =>
      var u := SkipSpace(t);
      if u == [] || u[0] != COLON then Fail
      else
        match ParseValue(u[1..])
        case Fail => Fail
        case Done(value, rest) => Done(Member(key, value), rest)
  }

  /** Members separated by commas up to the closing brace, added to `o`. */
  function ParseMembers(s: bytes, o: Members): (p: Parsed<Members>)
    ensures p.Done? ==> |p.rest| < |s|
    decreases |s|, 1
  {
    match ParseMember(s)
    case Fail => Fail
    case Done(m, t) =>
      var o' := Put(o, m.key, m.value);
      var u := SkipSpace(t);
      if u == [] then Fail
      else if u[0] == COMMA then ParseMembers(u[1..], o')
      else if u[0] == CLOSE_BRACE then Done(o', u[1..])
      else Fail
  }

  const BYTE_ORDER_MARK: bytes := [0xEF, 0xBB, 0xBF]

  /** A whole text: one value with white space around it, up to the end or a zero byte. */
  function Parse(s: bytes): (r: Option<Value>) {
    match ParseValue(if StartsWith(s, BYTE_ORDER_MARK) then s[3..] else s)
    case Fail => None
    case Done(v, rest) =>
      var t := SkipSpace(rest);
      if t == [] || t[0] == 0 then Some(v) else None
  }

  /** The member of an object; anything else has none. */
  function Lookup(v: Value, key: bytes): (r: Option<Value>)
    ensures !v.Object? ==> r == None
  {
    if v.Object? then Find(v.members, key) else None
  }
}
