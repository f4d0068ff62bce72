/** Whatever JSON value is printed, the parser reads it back. */
module JsonTheorems {
  import opened Wrappers
  import opened Bytes
  import opened Encodings
  import opened Json

  /** What the printer can be given: well-formed strings and numbers, and ordered members. */
  predicate Printable(v: Value) {
    match v
    case Null => true
    case Bool(_) => true
    case Number(digits) => AfterNumber(digits) == Some([])
    case String(text) => Utf8(text)
    case Array(items) => forall i :: 0 <= i < |items| ==> Printable(items[i])
    case Object(members) =>
      Ordered(members) && forall i :: 0 <= i < |members| ==> Utf8(members[i].key) && Printable(members[i].value)
  }

  /** The text does not go on with a character of a number. */
  predicate EndsNumber(s: bytes) {
    s == [] || !(IsDigit(s[0]) || s[0] == 46 || s[0] == 69 || s[0] == 101)
  }

  // ---------- Strings ----------

  lemma {:induction false} ParseEscape(c: byte, rest: bytes)
    requires c < 32 || c == QUOTE || c == BACKSLASH
    ensures EscapeChar(c)[0] == BACKSLASH
    ensures ParseChar(EscapeChar(c) + rest) == Done([c], rest)
  {
    var t := EscapeChar(c) + rest;
    if ShortEscape(c).Some? {
      assert t[2..] == rest;
    } else {
      var d := t[2..];
      assert d[..4] == [48, 48, HexChar(c / 16), HexChar(c % 16)];
      HexCharValue(c / 16, d[2]);
      HexCharValue(c % 16, d[3]);
      assert HexCode(d) == Some(c);
      assert d[4..] == rest;
    }
  }

  /** The well-formed characters that are printed as they are. */
  lemma {:induction false} ParsePlain(s: bytes, rest: bytes)
    requires s != [] && CharLength(s) == Some(|s|) && s[0] >= 32 && s[0] != QUOTE && s[0] != BACKSLASH
    ensures ParseChar(s + rest) == Done(s, rest)
  {
    var t := s + rest;
    assert CharLength(t) == Some(|s|);
    assert t[..|s|] == s && t[|s|..] == rest;
  }

  lemma {:induction false} EscapeConcat(a: bytes, b: bytes)
    ensures Escape(a + b) == Escape(a) + Escape(b)
  {
    if a == [] {
      assert a + b == b;
    } else {
      assert (a + b)[1..] == a[1..] + b;
      EscapeConcat(a[1..], b);
    }
  }

  /** The bytes of a longer character are not escaped. */
  lemma {:induction false} EscapeHigh(s: bytes)
    requires forall i :: 0 <= i < |s| ==> s[i] >= 128
    ensures Escape(s) == s
  {
    if s != [] {
      EscapeHigh(s[1..]);
      assert s == [s[0]] + s[1..];
    }
  }

  lemma {:induction false} FirstChar(s: bytes)
    requires s != [] && CharLength(s).Some?
    ensures var n := CharLength(s).value;
            && CharLength(s[..n]) == Some(n)
            && (n == 1 ==> s[0] < 128)
            && (n > 1 ==> forall i :: 0 <= i < n ==> s[i] >= 128)
  {
  }

  /** One printed character is parsed back, however it was printed. */
  lemma {:induction false} ParseEscaped(c: bytes, rest: bytes)
    requires c != [] && CharLength(c) == Some(|c|)
    ensures Escape(c) != [] && Escape(c)[0] != QUOTE
    ensures ParseChar(Escape(c) + rest) == Done(c, rest)
  {
    hide ParseChar;
    FirstChar(c);
    assert c[..|c|] == c;
    if |c| == 1 {
      assert c == [c[0]] && c[1..] == [];
      assert Escape(c) == EscapeChar(c[0]) + [] == EscapeChar(c[0]);
      if c[0] < 32 || c[0] == QUOTE || c[0] == BACKSLASH {
        ParseEscape(c[0], rest);
      } else {
        assert EscapeChar(c[0]) == c && Escape(c) == c;
        ParsePlain(c, rest);
      }
    } else {
      EscapeHigh(c);
      ParsePlain(c, rest);
    }
  }

  lemma {:induction false} ParseEscapedText(s: bytes, rest: bytes)
    requires Utf8(s)
    ensures ParseBody(Escape(s) + [QUOTE] + rest) == Done(s, rest)
    decreases |s|
  {
    hide EscapeChar, ParseChar, CharLength, Escape;
    var text := Escape(s) + [QUOTE] + rest;
    if s == [] {
      EscapeNothing();
      assert text[1..] == rest;
    } else {
      var n := CharLength(s).value;
      FirstChar(s);
      var c, tail := s[..n], Escape(s[n..]) + [QUOTE] + rest;
      EscapeConcat(c, s[n..]);
      assert s == c + s[n..];
      assert text == Escape(c) + tail;
      ParseEscaped(c, tail);
      ParseEscapedText(s[n..], rest);
    }
  }

  lemma {:induction false} EscapeNothing()
    ensures Escape([]) == []
  {
  }

  lemma {:induction false} ParseDumpedString(s: bytes, rest: bytes)
    requires Utf8(s)
    ensures ParseString(DumpString(s) + rest) == Done(s, rest)
  {
    hide Escape, Utf8, ParseBody;
    var text := DumpString(s) + rest;
    assert text[1..] == Escape(s) + [QUOTE] + rest;
    ParseEscapedText(s, rest);
  }

  lemma {:induction false} NoSpaceAhead(s: bytes)
    requires s != [] && !IsSpace(s[0])
    ensures SkipSpace(s) == s
  {
  }

  // ---------- Numbers ----------

  lemma {:induction false} SkipDigitsAppend(s: bytes, rest: bytes)
    requires EndsNumber(rest)
    ensures SkipDigits(s + rest) == SkipDigits(s) + rest
  {
    if s == [] {
      assert s + rest == rest;
    } else {
      assert (s + rest)[1..] == s[1..] + rest;
      if IsDigit(s[0]) {
        SkipDigitsAppend(s[1..], rest);
      }
    }
  }

  lemma {:induction false} AfterDigitsAppend(s: bytes, rest: bytes)
    requires EndsNumber(rest) && AfterDigits(s).Some?
    ensures AfterDigits(s + rest) == Some(AfterDigits(s).value + rest)
  {
    assert (s + rest)[1..] == s[1..] + rest;
    SkipDigitsAppend(s[1..], rest);
  }

  lemma {:induction false} AfterIntegerAppend(s: bytes, rest: bytes)
    requires EndsNumber(rest) && AfterInteger(s).Some?
    ensures AfterInteger(s + rest) == Some(AfterInteger(s).value + rest)
  {
    if s[0] == 48 {
      assert (s + rest)[1..] == s[1..] + rest;
    } else {
      AfterDigitsAppend(s, rest);
    }
  }

  lemma {:induction false} AfterFractionAppend(s: bytes, rest: bytes)
    requires EndsNumber(rest) && AfterFraction(s).Some?
    ensures AfterFraction(s + rest) == Some(AfterFraction(s).value + rest)
  {
    if s == [] {
      assert s + rest == rest;
    } else if s[0] == 46 {
      assert (s + rest)[1..] == s[1..] + rest;
      AfterDigitsAppend(s[1..], rest);
    }
  }

  lemma {:induction false} AfterExponentAppend(s: bytes, rest: bytes)
    requires EndsNumber(rest) && AfterExponent(s).Some?
    ensures AfterExponent(s + rest) == Some(AfterExponent(s).value + rest)
  {
    if s == [] {
      assert s + rest == rest;
    } else if s[0] == 69 || s[0] == 101 {
      var n := if |s| > 1 && (s[1] == 43 || s[1] == 45) then 2 else 1;
      assert (s + rest)[n..] == s[n..] + rest;
      AfterDigitsAppend(s[n..], rest);
    }
  }

  lemma {:induction false} AfterNumberAppend(s: bytes, rest: bytes)
    requires EndsNumber(rest) && AfterNumber(s).Some?
    ensures AfterNumber(s + rest) == Some(AfterNumber(s).value + rest)
  {
    hide AfterInteger, AfterFraction, AfterExponent;
    NotEmptyNumber(s);
    var n := if s[0] == 45 then 1 else 0;
    assert (s + rest)[n..] == s[n..] + rest && s[0..] == s && (s + rest)[0..] == s + rest;
    var t := AfterInteger(s[n..]).value;
    AfterIntegerAppend(s[n..], rest);
    var u := AfterFraction(t).value;
    AfterFractionAppend(t, rest);
    AfterExponentAppend(u, rest);
  }

  lemma {:induction false} NotEmptyNumber(s: bytes)
    requires AfterNumber(s).Some?
    ensures s != [] && (s[0] == 45 || IsDigit(s[0]))
  {
  }

  lemma {:induction false} WordHead(s: bytes, word: bytes)
    requires word != []
    ensures StartsWith(s, word) ==> s != [] && s[0] == word[0]
  {
    if StartsWith(s, word) {
      assert s[..|word|][0] == s[0];
    }
  }

  lemma {:induction false} ParseDumpedNumber(digits: bytes, rest: bytes)
    requires AfterNumber(digits) == Some([]) && EndsNumber(rest)
    ensures ParseWord(digits + rest) == Done(Number(digits), rest)
  {
    hide AfterNumber;
    var s := digits + rest;
    NotEmptyNumber(digits);
    AfterNumberAppend(digits, rest);
    assert [] + rest == rest;
    assert NULL_TEXT[0] == 110 && TRUE_TEXT[0] == 116 && FALSE_TEXT[0] == 102;
    WordHead(s, NULL_TEXT); WordHead(s, TRUE_TEXT); WordHead(s, FALSE_TEXT);
    assert s[..|s| - |rest|] == digits;
  }

  lemma {:induction false} ParseDumpedWord(v: Value, rest: bytes)
    requires v.Null? || v.Bool?
    ensures ParseWord(DumpValue(v) + rest) == Done(v, rest)
  {
    var word := DumpValue(v);
    var s := word + rest;
    assert s[..|word|] == word && s[|word|..] == rest;
    assert NULL_TEXT[0] != TRUE_TEXT[0] && NULL_TEXT[0] != FALSE_TEXT[0] && TRUE_TEXT[0] != FALSE_TEXT[0];
    assert StartsWith(s, NULL_TEXT) ==> s[..4][0] == NULL_TEXT[0];
    assert StartsWith(s, TRUE_TEXT) ==> s[..4][0] == TRUE_TEXT[0];
  }

  // ---------- White space ----------

  /** Space, tab, line feed and carriage return. */
  predicate White(w: bytes) {
    forall i :: 0 <= i < |w| ==> w[i] in {0x20, 0x09, 0x0A, 0x0D}
  }

  predicate StartsWhite(s: bytes) {
    s != [] && White(s[..1])
  }

  /** Exactly the white space in front is skipped. */
  lemma {:induction false} SkipsWhite(w: bytes, s: bytes)
    requires White(w) && !StartsWhite(s)
    ensures SkipSpace(w + s) == s
  {
    if w == [] {
      assert w + s == s;
    } else {
      assert (w + s)[1..] == w[1..] + s;
      SkipsWhite(w[1..], s);
    }
  }

  lemma {:induction false} NoWhite(s: bytes)
    requires s != [] && !IsSpace(s[0])
    ensures !StartsWhite(s)
  {
  }

  lemma {:induction false} SkipsTo(w: bytes, c: byte, rest: bytes)
    requires White(w) && !IsSpace(c)
    ensures SkipSpace(w + ([c] + rest)) == [c] + rest
  {
    NoWhite([c] + rest);
    SkipsWhite(w, [c] + rest);
  }

  /** White space in front of a value does not matter. */
  lemma {:induction false} WhiteValue(w: bytes, s: bytes)
    requires White(w) && s != [] && !IsSpace(s[0])
    ensures ParseValue(w + s) == ParseValue(s)
  {
    hide ParseItems, ParseMembers, ParseString, ParseWord;
    NoWhite(s);
    SkipsWhite(w, s);
    SkipsWhite([], s);
    assert [] + s == s;
  }

  // ---------- Values ----------

  /** A value printed with the white space `w` around every value and every key. */
  function Spaced(v: Value, w: bytes): (t: bytes) {
    match v
    case Array(items) =>
      [OPEN_BRACKET]
      + if items == [] then w + [CLOSE_BRACKET]
        else w + (Spaced(items[0], w) + (w + SpacedItems(items[1..], w)))
    case Object(members) =>
      [OPEN_BRACE]
      + if members == [] then w + [CLOSE_BRACE]
        else w + (SpacedMember(members[0], w) + (w + SpacedTail(members[1..], w)))
    case _ => DumpValue(v)
  }

  /** The items after the first, and the closing bracket. */
  function SpacedItems(items: seq<Value>, w: bytes): (t: bytes)
    ensures |t| > 0 && t[0] == if items == [] then CLOSE_BRACKET else COMMA
  {
    if items == [] then [CLOSE_BRACKET]
    else [COMMA] + (w + (Spaced(items[0], w) + (w + SpacedItems(items[1..], w))))
  }

  function SpacedMember(m: Member, w: bytes): (t: bytes) {
    DumpString(m.key) + (w + ([COLON] + (w + Spaced(m.value, w))))
  }

  /** The members after the first, and the closing brace. */
  function SpacedTail(o: Members, w: bytes): (t: bytes)
    ensures |t| > 0 && t[0] == if o == [] then CLOSE_BRACE else COMMA
  {
    if o == [] then [CLOSE_BRACE] else [COMMA] + (w + (SpacedMember(o[0], w) + (w + SpacedTail(o[1..], w))))
  }

  lemma {:induction false} FirstByte(v: Value, w: bytes)
    requires Printable(v)
    ensures var t := Spaced(v, w);
            && t != [] && !IsSpace(t[0]) && t[0] != CLOSE_BRACKET && t[0] != CLOSE_BRACE && t[0] < 128
            && (t[0] == QUOTE <==> v.String?)
            && (t[0] == OPEN_BRACKET <==> v.Array?)
            && (t[0] == OPEN_BRACE <==> v.Object?)
  {
    hide AfterNumber;
    if v.Number? {
      NotEmptyNumber(v.digits);
    }
    assert NULL_TEXT[0] == 110 && TRUE_TEXT[0] == 116 && FALSE_TEXT[0] == 102;
  }

  lemma {:induction false} ScalarValue(v: Value, rest: bytes)
    requires Printable(v) && !v.Array? && !v.Object? && EndsNumber(rest)
    ensures ParseValue(DumpValue(v) + rest) == Done(v, rest)
  {
    FirstByte(v, []);
    hide AfterNumber, DumpString, ParseWord, ParseString;
    var s := DumpValue(v) + rest;
    NoSpaceAhead(s);
    if v.String? {
      ParseDumpedString(v.text, rest);
    } else if v.Number? {
      ParseDumpedNumber(v.digits, rest);
    } else {
      ParseDumpedWord(v, rest);
    }
  }

  lemma {:induction false} ArrayValue(w: bytes, inner: bytes, items: seq<Value>, rest: bytes)
    requires White(w) && inner != [] && !IsSpace(inner[0]) && inner[0] != CLOSE_BRACKET
    requires ParseItems(w + inner, []) == Done(items, rest)
    ensures ParseValue([OPEN_BRACKET] + (w + inner)) == Done(Array(items), rest)
  {
    hide ParseItems;
    var t := [OPEN_BRACKET] + (w + inner);
    assert t[1..] == w + inner;
    NoSpaceAhead(t);
    NoWhite(inner);
    SkipsWhite(w, inner);
  }

  lemma {:induction false} ObjectValue(w: bytes, inner: bytes, members: Members, rest: bytes)
    requires White(w) && inner != [] && !IsSpace(inner[0]) && inner[0] != CLOSE_BRACE
    requires ParseMembers(w + inner, []) == Done(members, rest)
    ensures ParseValue([OPEN_BRACE] + (w + inner)) == Done(Object(members), rest)
  {
    hide ParseMembers;
    var t := [OPEN_BRACE] + (w + inner);
    assert t[1..] == w + inner;
    NoSpaceAhead(t);
    NoWhite(inner);
    SkipsWhite(w, inner);
  }

  lemma {:induction false} EmptyArray(w: bytes, rest: bytes)
    requires White(w)
    ensures ParseValue([OPEN_BRACKET] + (w + ([CLOSE_BRACKET] + rest))) == Done(Array([]), rest)
  {
    hide ParseItems;
    var t := [OPEN_BRACKET] + (w + ([CLOSE_BRACKET] + rest));
    assert t[1..] == w + ([CLOSE_BRACKET] + rest);
    NoSpaceAhead(t);
    SkipsTo(w, CLOSE_BRACKET, rest);
    assert ([CLOSE_BRACKET] + rest)[1..] == rest;
  }

  lemma {:induction false} EmptyObject(w: bytes, rest: bytes)
    requires White(w)
    ensures ParseValue([OPEN_BRACE] + (w + ([CLOSE_BRACE] + rest))) == Done(Object([]), rest)
  {
    hide ParseMembers;
    var t := [OPEN_BRACE] + (w + ([CLOSE_BRACE] + rest));
    assert t[1..] == w + ([CLOSE_BRACE] + rest);
    NoSpaceAhead(t);
    SkipsTo(w, CLOSE_BRACE, rest);
    assert ([CLOSE_BRACE] + rest)[1..] == rest;
  }

  lemma {:induction false} ItemsStep(text: bytes, done: seq<Value>, v: Value, w: bytes, u: bytes)
    requires ParseValue(text) == Done(v, w + u) && White(w)
    requires u != [] && (u[0] == COMMA || u[0] == CLOSE_BRACKET)
    ensures ParseItems(text, done)
         == if u[0] == COMMA then ParseItems(u[1..], done + [v]) else Done(done + [v], u[1..])
  {
    hide ParseValue;
    NoWhite(u);
    SkipsWhite(w, u);
  }

  lemma {:induction false} MembersStep(text: bytes, done: Members, m: Member, w: bytes, u: bytes)
    requires ParseMember(text) == Done(m, w + u) && White(w)
    requires forall i :: 0 <= i < |done| ==> Less(done[i].key, m.key)
    requires u != [] && (u[0] == COMMA || u[0] == CLOSE_BRACE)
    ensures ParseMembers(text, done)
         == if u[0] == COMMA then ParseMembers(u[1..], done + [m]) else Done(done + [m], u[1..])
  {
    hide ParseMember, Put;
    PutLast(done, m.key, m.value);
    NoWhite(u);
    SkipsWhite(w, u);
  }

  lemma {:induction false} MemberStep(m: Member, w: bytes, rest: bytes)
    requires Utf8(m.key) && White(w)
    requires ParseValue(w + (Spaced(m.value, w) + rest)) == Done(m.value, rest)
    ensures ParseMember(w + (SpacedMember(m, w) + rest)) == Done(m, rest)
  {
    hide ParseString, ParseValue, Spaced, Utf8, White;
    var value := w + (Spaced(m.value, w) + rest);
    var u := w + ([COLON] + value);
    var text := DumpString(m.key) + u;
    assert SpacedMember(m, w) + rest == text;
    ParseDumpedString(m.key, u);
    var q := text[1..];
    assert text == [QUOTE] + q;
    hide DumpString;
    SkipsTo(w, QUOTE, q);
    SkipsTo(w, COLON, value);
    assert ([COLON] + value)[1..] == value;
  }

  lemma {:induction false} OrderedSplit(done: Members, m: Member, o: Members)
    requires Ordered(done + [m] + o)
    ensures forall i :: 0 <= i < |done| ==> Less(done[i].key, m.key)
  {
    var all := done + [m] + o;
    forall i | 0 <= i < |done|
      ensures Less(done[i].key, m.key)
    {
      assert all[i] == done[i] && all[|done|] == m;
    }
  }

  lemma {:induction false} SpacedArray(items: seq<Value>, w: bytes, rest: bytes)
    ensures Spaced(Array(items), w) + rest
         == [OPEN_BRACKET]
            + (w + if items == [] then [CLOSE_BRACKET] + rest
                   else Spaced(items[0], w) + (w + (SpacedItems(items[1..], w) + rest)))
  {
  }

  lemma {:induction false} SpacedObject(members: Members, w: bytes, rest: bytes)
    ensures Spaced(Object(members), w) + rest
         == [OPEN_BRACE]
            + (w + if members == [] then [CLOSE_BRACE] + rest
                   else SpacedMember(members[0], w) + (w + (SpacedTail(members[1..], w) + rest)))
  {
  }

  /** White space or the end of the text, a bracket, a brace or a comma end a number. */
  lemma {:induction false} WhiteEndsNumber(w: bytes, u: bytes)
    requires White(w) && EndsNumber(u)
    ensures EndsNumber(w + u)
  {
    if w == [] {
      assert w + u == u;
    }
  }

  lemma {:induction false} CommaOrClose(u: bytes, close: byte)
    requires u != [] && (u[0] == COMMA || u[0] == close) && close in {CLOSE_BRACKET, CLOSE_BRACE}
    ensures EndsNumber(u)
  {
  }

  lemma {:induction false} ItemsRest(items: seq<Value>, w: bytes, rest: bytes)
    ensures (SpacedItems(items, w) + rest)[1..]
         == if items == [] then rest else w + (Spaced(items[0], w) + (w + (SpacedItems(items[1..], w) + rest)))
  {
    hide Spaced;
  }

  lemma {:induction false} TailRest(o: Members, w: bytes, rest: bytes)
    ensures (SpacedTail(o, w) + rest)[1..]
         == if o == [] then rest else w + (SpacedMember(o[0], w) + (w + (SpacedTail(o[1..], w) + rest)))
  {
    hide SpacedMember;
  }

  lemma {:induction false} ParseSpacedValue(v: Value, w: bytes, rest: bytes)
    requires Printable(v) && White(w) && EndsNumber(rest)
    ensures ParseValue(Spaced(v, w) + rest) == Done(v, rest)
    decreases v
  {
    hide ParseValue, ParseItems, ParseMembers, SpacedMember, SpacedItems, SpacedTail, White, EndsNumber;
    match v
    case Array(items) =>
      hide Spaced;
      SpacedArray(items, w, rest);
      if items == [] {
        EmptyArray(w, rest);
      } else {
        var inner := Spaced(items[0], w) + (w + (SpacedItems(items[1..], w) + rest));
        ParseSpacedItems([], items, w, rest);
        FirstByte(items[0], w);
        assert inner[0] == Spaced(items[0], w)[0];
        assert [] + items == items;
        ArrayValue(w, inner, items, rest);
      }
    case Object(members) =>
      hide Spaced;
      SpacedObject(members, w, rest);
      if members == [] {
        EmptyObject(w, rest);
      } else {
        var inner := SpacedMember(members[0], w) + (w + (SpacedTail(members[1..], w) + rest));
        assert [] + members == members;
        ParseSpacedMembers([], members, w, rest);
        FirstOfMember(members[0], w);
        ObjectValue(w, inner, members, rest);
      }
    case _ => ScalarValue(v, rest);
  }

  lemma {:induction false} FirstOfMember(m: Member, w: bytes)
    ensures SpacedMember(m, w) != [] && SpacedMember(m, w)[0] == QUOTE
  {
  }

  lemma {:induction false} ParseSpacedItems(done: seq<Value>, items: seq<Value>, w: bytes, rest: bytes)
    requires items != [] && White(w) && forall i :: 0 <= i < |items| ==> Printable(items[i])
    ensures ParseItems(w + (Spaced(items[0], w) + (w + (SpacedItems(items[1..], w) + rest))), done)
         == Done(done + items, rest)
    decreases items
  {
    hide ParseValue, ParseItems, Spaced, SpacedItems, Printable, White, EndsNumber, IsSpace;
    var v, others := items[0], items[1..];
    var u := SpacedItems(others, w) + rest;
    var text := Spaced(v, w) + (w + u);
    assert items == [v] + others;
    CommaOrClose(u, CLOSE_BRACKET);
    WhiteEndsNumber(w, u);
    ParseSpacedValue(v, w, w + u);
    FirstByte(v, w);
    WhiteValue(w, text);
    ItemsStep(w + text, done, v, w, u);
    ItemsRest(others, w, rest);
    if others == [] {
      assert done + [v] == done + items;
    } else {
      assert forall i :: 0 <= i < |others| ==> others[i] == items[i + 1];
      ParseSpacedItems(done + [v], others, w, rest);
      assert done + [v] + others == done + items;
    }
  }

  lemma {:induction false} ParseSpacedMembers(done: Members, members: Members, w: bytes, rest: bytes)
    requires members != [] && White(w) && Ordered(done + members)
    requires forall i :: 0 <= i < |members| ==> Utf8(members[i].key) && Printable(members[i].value)
    ensures ParseMembers(w + (SpacedMember(members[0], w) + (w + (SpacedTail(members[1..], w) + rest))), done)
         == Done(done + members, rest)
    decreases members
  {
    hide ParseValue, ParseMembers, SpacedMember, SpacedTail, Spaced, Printable, Utf8, Ordered, White;
    hide EndsNumber, IsSpace;
    var m, others := members[0], members[1..];
    var u := SpacedTail(others, w) + rest;
    assert members == [m] + others && done + members == done + [m] + others;
    CommaOrClose(u, CLOSE_BRACE);
    WhiteEndsNumber(w, u);
    ParseSpacedValue(m.value, w, w + u);
    FirstByte(m.value, w);
    WhiteValue(w, Spaced(m.value, w) + (w + u));
    MemberStep(m, w, w + u);
    OrderedSplit(done, m, others);
    MembersStep(w + (SpacedMember(m, w) + (w + u)), done, m, w, u);
    TailRest(others, w, rest);
    if others == [] {
      assert done + [m] == done + members;
    } else {
      assert forall i :: 0 <= i < |others| ==> others[i] == members[i + 1];
      ParseSpacedMembers(done + [m], others, w, rest);
      assert done + [m] + others == done + members;
    }
  }

  lemma {:induction false} FirstByteIsNoMark(s: bytes)
    requires s != [] && s[0] < 128
    ensures !StartsWith(s, BYTE_ORDER_MARK)
  {
    WordHead(s, BYTE_ORDER_MARK);
  }

  /** A printed value is read back, whatever white space surrounds its parts, and whatever follows
      a zero byte at its end. */
  lemma {:induction false} ParseSpaced(v: Value, w: bytes, rest: bytes)
    requires Printable(v) && White(w) && (rest == [] || rest[0] == 0)
    ensures Parse(w + (Spaced(v, w) + (w + rest))) == Some(v)
  {
    hide ParseValue, Spaced, Printable, StartsWith;
    var text := Spaced(v, w) + (w + rest);
    WhiteEndsNumber(w, rest);
    ParseSpacedValue(v, w, w + rest);
    FirstByte(v, w);
    WhiteValue(w, text);
    SkipsWhite(w, rest);
    FirstByteIsNoMark(w + text);
  }

  lemma {:induction false} SpacedNothing(v: Value)
    ensures Spaced(v, []) == DumpValue(v)
    decreases v
  {
    match v
    case Array(items) =>
      if items != [] {
        SpacedNothing(items[0]);
        ItemsNothing(items[1..]);
      }
    case Object(members) =>
      if members != [] {
        MemberNothing(members[0]);
        TailNothing(members[1..]);
      }
    case _ =>
  }

  lemma {:induction false} ItemsNothing(items: seq<Value>)
    ensures SpacedItems(items, []) == DumpItems(items)
    decreases items
  {
    if items != [] {
      SpacedNothing(items[0]);
      ItemsNothing(items[1..]);
    }
  }

  lemma {:induction false} MemberNothing(m: Member)
    ensures SpacedMember(m, []) == DumpMember(m)
    decreases m
  {
    SpacedNothing(m.value);
  }

  lemma {:induction false} TailNothing(o: Members)
    ensures SpacedTail(o, []) == DumpTail(o)
    decreases o
  {
    if o != [] {
      MemberNothing(o[0]);
      TailNothing(o[1..]);
    }
  }

  /** What the printer writes, the parser reads back. */
  lemma {:induction false} ParseDump(v: Value)
    requires Printable(v)
    ensures Parse(DumpValue(v)) == Some(v)
  {
    hide Parse, DumpValue, Printable, Spaced;
    SpacedNothing(v);
    ParseSpaced(v, [], []);
    assert [] + (DumpValue(v) + ([] + [])) == DumpValue(v);
  }

  // ---------- Escapes (RFC 8259 section 7) ----------

  /** What stands after a backslash for one character, except u. */
  lemma {:induction false} ShortEscapes(e: byte, rest: bytes)
    requires e != LETTER_U
    ensures ParseChar([0x5C, e] + rest)
         == (if e in {0x22, 0x5C, 0x2F} then Done([e], rest)
             else if e == 0x62 then Done([0x08], rest)
             else if e == 0x66 then Done([0x0C], rest)
             else if e == 0x6E then Done([0x0A], rest)
             else if e == 0x72 then Done([0x0D], rest)
             else if e == 0x74 then Done([0x09], rest)
             else Fail)
  {
    var s := [0x5C, e] + rest;
    assert s[2..] == rest;
  }

  /** Four hex digits of either case spell the code. */
  predicate HexSpells(d: bytes, code: nat) {
    |d| == 4 && IsHex(d) && FromHexValue(d) == code < 0x1_0000
  }

  function FromHexValue(d: bytes): (n: nat)
    requires AllDigits(d, HexValue)
  {
    if d == [] then 0 else 16 * FromHexValue(d[..|d| - 1]) + HexValue(d[|d| - 1]).value
  }

  lemma {:induction false} FourHexDigits(d: bytes, code: nat, rest: bytes)
    requires HexSpells(d, code)
    ensures HexCode(d + rest) == Some(code)
  {
    var s := d + rest;
    assert d[..3][..2] == d[..2] && d[..2][..1] == d[..1] && d[..1][..0] == [];
    assert FromHexValue(d[..0]) == 0;
    assert FromHexValue(d[..1]) == HexValue(d[0]).value;
    assert FromHexValue(d[..2]) == 16 * FromHexValue(d[..1]) + HexValue(d[1]).value;
    assert FromHexValue(d[..3]) == 16 * FromHexValue(d[..2]) + HexValue(d[2]).value;
  }

  /** A code point below 65536 that is no surrogate, by its four hex digits. */
  lemma {:induction false} UnicodeEscape(d: bytes, code: nat, rest: bytes)
    requires HexSpells(d, code) && !(0xD800 <= code < 0xE000)
    ensures ParseChar([0x5C, 0x75] + (d + rest)) == Done(EncodeChar(code), rest)
  {
    hide HexCode, EncodeChar;
    FourHexDigits(d, code, rest);
    var s := [0x5C, 0x75] + (d + rest);
    assert s[2..] == d + rest && (d + rest)[4..] == rest;
  }

  /** A code point from 65536 on, by two surrogates; a surrogate alone is an error. */
  lemma {:induction false} SurrogateEscape(d: bytes, high: nat, e: bytes, low: nat, rest: bytes)
    requires HexSpells(d, high) && 0xD800 <= high < 0xDC00 && HexSpells(e, low)
    ensures var code := 0x1_0000 + (high - 0xD800) * 0x400 + (low - 0xDC00);
            ParseChar([0x5C, 0x75] + (d + ([0x5C, 0x75] + (e + rest))))
            == if 0xDC00 <= low < 0xE000 then Done(EncodeChar(code), rest) else Fail
    ensures ParseChar([0x5C, 0x75] + (e + rest)).Done? ==> !(0xDC00 <= low < 0xE000)
  {
    hide HexCode, EncodeChar;
    var tail := [0x5C, 0x75] + (e + rest);
    FourHexDigits(d, high, tail);
    FourHexDigits(e, low, rest);
    var s := [0x5C, 0x75] + (d + tail);
    var u := d + tail;
    assert s[2..] == u && u[4] == 0x5C && u[5] == 0x75 && u[6..] == e + rest && u[10..] == rest;
    assert tail[2..] == e + rest;
  }

  // ---------- The grammar of numbers (RFC 8259 section 6) ----------

  predicate AreDigits(s: bytes) {
    forall i :: 0 <= i < |s| ==> 0x30 <= s[i] <= 0x39
  }

  predicate IntegerPart(s: bytes) {
    s != [] && AreDigits(s) && (s[0] == 0x30 ==> |s| == 1)
  }

  predicate FractionPart(s: bytes) {
    s == [] || (|s| > 1 && s[0] == 0x2E && AreDigits(s[1..]))
  }

  predicate ExponentPart(s: bytes) {
    || s == []
    || (|s| > 1 && s[0] in {0x45, 0x65} && AreDigits(s[1..]))
    || (|s| > 2 && s[0] in {0x45, 0x65} && s[1] in {0x2B, 0x2D} && AreDigits(s[2..]))
  }

  lemma {:induction false} SkipsDigits(s: bytes)
    ensures var t := SkipDigits(s);
            && |t| <= |s| && t == s[|s| - |t|..]
            && AreDigits(s[..|s| - |t|])
            && (t != [] ==> !IsDigit(t[0]))
  {
    if s != [] && IsDigit(s[0]) {
      SkipsDigits(s[1..]);
      var t := SkipDigits(s);
      var n := |s| - |t|;
      assert s[1..][..n - 1] == s[..n][1..];
    }
  }

  /** Every text of the grammar is a number. */
  lemma {:induction false} GrammarIsNumber(minus: bool, i: bytes, f: bytes, e: bytes)
    requires IntegerPart(i) && FractionPart(f) && ExponentPart(e)
    ensures AfterNumber((if minus then [0x2D] else []) + (i + (f + e))) == Some([])
  {
    hide SkipDigits;
    var t := i + (f + e);
    var s := (if minus then [0x2D] else []) + t;
    assert minus ==> s[1..] == t;
    assert !minus ==> s == t;
    assert t[0] == i[0];
    IntegerAlone(i, f + e);
    FractionAlone(f, e);
    ExponentAlone(e);
  }

  lemma {:induction false} DigitsAlone(d: bytes, rest: bytes)
    requires d != [] && AreDigits(d) && (rest == [] || !IsDigit(rest[0]))
    ensures AfterDigits(d + rest) == Some(rest)
  {
    assert (d + rest)[1..] == d[1..] + rest;
    DigitsSkipped(d[1..], rest);
  }

  lemma {:induction false} DigitsSkipped(d: bytes, rest: bytes)
    requires AreDigits(d) && (rest == [] || !IsDigit(rest[0]))
    ensures SkipDigits(d + rest) == rest
  {
    if d == [] {
      assert d + rest == rest;
    } else {
      assert (d + rest)[1..] == d[1..] + rest;
      DigitsSkipped(d[1..], rest);
    }
  }

  lemma {:induction false} IntegerAlone(i: bytes, rest: bytes)
    requires IntegerPart(i) && (rest == [] || !IsDigit(rest[0]))
    ensures AfterInteger(i + rest) == Some(rest)
  {
    if i[0] == 0x30 {
      assert (i + rest)[1..] == rest;
    } else {
      DigitsAlone(i, rest);
    }
  }

  lemma {:induction false} FractionAlone(f: bytes, e: bytes)
    requires FractionPart(f) && ExponentPart(e)
    ensures AfterFraction(f + e) == Some(e)
  {
    if f == [] {
      assert f + e == e;
    } else {
      assert (f + e)[1..] == f[1..] + e;
      DigitsAlone(f[1..], e);
    }
  }

  lemma {:induction false} ExponentAlone(e: bytes)
    requires ExponentPart(e)
    ensures AfterExponent(e) == Some([])
  {
    if e != [] {
      var d := if e[1] in {0x2B, 0x2D} then e[2..] else e[1..];
      DigitsAlone(d, []);
      assert d + [] == d;
    }
  }

  /** Every number is a text of the grammar. */
  lemma {:induction false} NumberIsGrammar(s: bytes) returns (minus: bool, i: bytes, f: bytes, e: bytes)
    requires AfterNumber(s) == Some([])
    ensures IntegerPart(i) && FractionPart(f) && ExponentPart(e)
    ensures s == (if minus then [0x2D] else []) + (i + (f + e))
  {
    hide AfterInteger, AfterFraction, AfterExponent, IntegerPart, FractionPart, ExponentPart;
    minus := s != [] && s[0] == 0x2D;
    var t := if minus then s[1..] else s;
    i := IntegerSplit(t);
    var u := AfterInteger(t).value;
    f := FractionSplit(u);
    e := AfterFraction(u).value;
    ExponentSplit(e);
    assert t == i + (f + e);
  }

  lemma {:induction false} DigitsSplit(s: bytes) returns (d: bytes)
    requires AfterDigits(s).Some?
    ensures d != [] && AreDigits(d) && s == d + AfterDigits(s).value && d[0] == s[0]
  {
    SkipsDigits(s[1..]);
    var t := AfterDigits(s).value;
    d := [s[0]] + s[1..][..|s| - 1 - |t|];
  }

  lemma {:induction false} IntegerSplit(s: bytes) returns (i: bytes)
    requires AfterInteger(s).Some?
    ensures IntegerPart(i) && s == i + AfterInteger(s).value
  {
    if s[0] == 0x30 {
      i := [0x30];
    } else {
      i := DigitsSplit(s);
    }
  }

  lemma {:induction false} FractionSplit(s: bytes) returns (f: bytes)
    requires AfterFraction(s).Some?
    ensures FractionPart(f) && s == f + AfterFraction(s).value
  {
    if s != [] && s[0] == 0x2E {
      var d := DigitsSplit(s[1..]);
      f := [0x2E] + d;
      assert f[1..] == d;
    } else {
      f := [];
    }
  }

  lemma {:induction false} ExponentSplit(e: bytes)
    requires AfterExponent(e) == Some([])
    ensures ExponentPart(e)
  {
    if e != [] {
      var n := if |e| > 1 && e[1] in {0x2B, 0x2D} then 2 else 1;
      var d := DigitsSplit(e[n..]);
      assert e[n..] == d;
    }
  }
}
