/** Public keys in any of four textual forms (onionreq/key_types.cpp). */
module KeyTypes {
  import opened Wrappers
  import opened Bytes
  import opened Buffers
  import opened Encodings

  /** The bytes a text stands for: the encoding is chosen by length alone, then checked. */
  function DecodedText(s: bytes): (d: Option<bytes>)
    ensures d.Some? ==> |d.value| <= 32
  {
    if |s| == 32 then Some(s)
    else if |s| == 64 && IsHex(s) then Some(FromHex(s))
    else if (|s| == 43 || (|s| == 44 && s[43] == EQUALS)) && IsBase64(s) then Some(FromBase64(s))
    else if |s| == 52 && IsBase32z(s) then Some(FromBase32z(s))
    else None
  }

  /** The key for a text: the decoded bytes over a buffer of zeros. */
  function ParsedPubkey(s: bytes): (pk: Key) {
    match DecodedText(s)
    case None => NULL_KEY
    case Some(d) => d + NULL_KEY[|d|..]
  }

  // ---------- Writing into key buffers ----------

  method LoadFromHex(buffer: array<byte>, hex: bytes) returns (r: Result<()>)
    modifies buffer
    ensures r.Ok? <==> IsHex(hex) && |hex| == 2 * buffer.Length
    ensures r.Ok? ==> buffer[..] == FromHex(hex)
    ensures r.Err? ==> buffer[..] == old(buffer[..])
    ensures r == Err(NotHex) <==> !IsHex(hex)
    ensures r == Err(WrongLength(buffer.Length, |hex|)) <==> IsHex(hex) && |hex| != 2 * buffer.Length
  {
    if !IsHex(hex) {
      return Err(NotHex);
    }
    if |hex| != 2 * buffer.Length {
      return Err(WrongLength(buffer.Length, |hex|));
    }
    WriteAt(buffer, 0, FromHex(hex));
    return Ok(());
  }

  method LoadFromBytes(buffer: array<byte>, data: bytes) returns (r: Result<()>)
    modifies buffer
    ensures r == if |data| == buffer.Length then Ok(()) else Err(WrongLength(buffer.Length, |data|))
    ensures buffer[..] == if r.Ok? then data else old(buffer[..])
  {
    if |data| != buffer.Length {
      return Err(WrongLength(buffer.Length, |data|));
    }
    WriteAt(buffer, 0, data);
    return Ok(());
  }

  method ParsePubkey(s: bytes) returns (pk: array<byte>)
    ensures fresh(pk) && pk.Length == 32
    ensures pk[..] == ParsedPubkey(s)
  {
    hide IsHex, IsBase64, IsBase32z, FromHex, FromBase64, FromBase32z;
    pk := new byte[32](_ => 0);
    assert pk[..] == NULL_KEY;
    if |s| == 32 {
      var r := LoadFromBytes(pk, s);
    } else if |s| == 64 && IsHex(s) {
      WriteAt(pk, 0, FromHex(s));
    } else if (|s| == 43 || (|s| == 44 && s[43] == EQUALS)) && IsBase64(s) {
      WriteAt(pk, 0, FromBase64(s));
    } else if |s| == 52 && IsBase32z(s) {
      WriteAt(pk, 0, FromBase32z(s));
    }
  }

  // ---------- What parsing promises ----------

  /** A text of the right length in one of the four forms. */
  predicate Encodes(s: bytes, key: Key) {
    || s == key
    || SameButCase(s, ToHex(key))
    || s == ToBase64(key, false)
    || s == ToBase64(key, true)
    || SameButCase(s, ToBase32z(key))
  }

  /** Every accepted form of a key parses back to exactly that key. */
  lemma {:induction false} ParseEncodedKey(s: bytes, key: Key)
    requires Encodes(s, key)
    ensures DecodedText(s) == Some(key)
    ensures ParsedPubkey(s) == key
  {
    hide IsHex, IsBase64, IsBase32z, FromHex, FromBase64, FromBase32z, ToDigits;
    if s == key {
    } else if SameButCase(s, ToHex(key)) {
      HexRoundTrip(key, s);
    } else if SameButCase(s, ToBase32z(key)) {
      Base32zRoundTrip(key, s);
      Base32zLength(key);
    } else if s == ToBase64(key, false) {
      Base64RoundTrip(key, false);
      Base64Length(key);
    } else {
      Base64RoundTrip(key, true);
      Base64Length(key);
      PaddedKeyText(key);
    }
  }

  lemma {:induction false} PaddedKeyText(key: Key)
    ensures |ToBase64(key, true)| == 44 && ToBase64(key, true)[43] == EQUALS
  {
    Base64Length(key);
  }

  /** An accepted text fills the whole key unless it is 42 base64 digits completed by "==". */
  lemma {:induction false} AcceptedTextFills(s: bytes)
    requires DecodedText(s).Some?
    ensures |DecodedText(s).value| == 32 <==> !(|s| == 44 && s[42] == EQUALS)
    ensures |DecodedText(s).value| == 31 <==> |s| == 44 && s[42] == EQUALS
  {
    if |s| == 43 || |s| == 44 {
      assert |StripPadding(s)| == if |s| == 44 && s[42] == EQUALS then 42 else 43;
    }
  }

  /** The texts that are accepted; all others give the null key. */
  lemma {:induction false} AcceptedTexts(s: bytes)
    ensures DecodedText(s).Some?
            <==> || |s| == 32
                 || (|s| == 64 && AllLetters(s, HEX_LOWER, HEX_UPPER))
                 || (|s| == 43 && AllLetters(s, BASE64_LETTERS, []))
                 || (|s| == 44 && s[43] == EQUALS && AllLetters(s[..43], BASE64_LETTERS, []))
                 || (|s| == 44 && s[42..] == [EQUALS, EQUALS] && AllLetters(s[..42], BASE64_LETTERS, []))
                 || (|s| == 52 && AllLetters(s, Z_LOWER, Z_UPPER))
    ensures DecodedText(s).None? ==> ParsedPubkey(s) == NULL_KEY
    ensures DecodedText(s).Some? ==>
              var d := DecodedText(s).value;
              ParsedPubkey(s)[..|d|] == d && forall i :: |d| <= i < 32 ==> ParsedPubkey(s)[i] == 0
  {
    hide IsHex, IsBase64, IsBase32z, IsLetter, HasLetter, FromDigits;
    HexAccepted(s);
    Base64Accepted(s);
    Base32zAccepted(s);
    if |s| == 44 {
      assert s[42..] == [s[42], s[43]];
      if s[43] == EQUALS {
        EqualsAtEnd(s);
      }
    }
  }

  lemma {:induction false} EqualsAtEnd(s: bytes)
    requires s != [] && s[|s| - 1] == EQUALS
    ensures !AllLetters(s, BASE64_LETTERS, [])
  {
    NotALetter();
    assert !HasLetter(BASE64_LETTERS, [], s[|s| - 1]);
  }

  /** The last digit of a base64 or z-base-32 key has its 2 or 4 left-over bits clear. */
  predicate LeftOverClear(s: bytes) {
    if |s| == 43 || |s| == 44 then Base64Value(s[42]).Some? && Base64Value(s[42]).value % 4 == 0
    else if |s| == 52 then Base32zValue(s[51]).Some? && Base32zValue(s[51]).value % 16 == 0
    else true
  }

  lemma {:induction false} FormLengths(s: bytes, key: Key)
    ensures Encodes(s, key) ==> |s| in {32, 43, 44, 52, 64}
    ensures |s| == 32 ==> (Encodes(s, key) <==> s == key)
    ensures |s| == 64 ==> (Encodes(s, key) <==> SameButCase(s, ToHex(key)))
    ensures |s| == 43 ==> (Encodes(s, key) <==> s == Base64Chars(key))
    ensures |s| == 44 ==> (Encodes(s, key) <==> s == Base64Chars(key) + [EQUALS])
    ensures |s| == 52 ==> (Encodes(s, key) <==> SameButCase(s, ToBase32z(key)))
  {
    hide ToDigits;
    Base64Length(key);
    Base32zLength(key);
    assert seq(1, _ => EQUALS) == [EQUALS];
  }

  lemma {:induction false} Base64Key(chars: bytes, key: Key)
    requires |chars| == 43 && AllDigits(chars, Base64Value)
    ensures chars == Base64Chars(key)
            <==> FromDigits(Values(chars, Base64Value), 6) == key && Base64Value(chars[42]).value % 4 == 0
  {
    hide Base64Chars, FromDigits, LeftOver, AllClear, Base64Value;
    assert Pow2(2) == 4;
    LeftOverOfLast(Values(chars, Base64Value), 6, 2);
    Base64Texts(chars, key);
  }

  lemma {:induction false} Base32zKey(s: bytes, key: Key)
    requires |s| == 52 && IsBase32z(s)
    ensures SameButCase(s, ToBase32z(key)) <==> FromBase32z(s) == key && Base32zValue(s[51]).value % 16 == 0
  {
    hide SameButCase, ToBase32z, FromBase32z, LeftOver, AllClear, Base32zValue;
    assert Pow2(4) == 16;
    LeftOverOfLast(Values(s, Base32zValue), 5, 4);
    Base32zTexts(s, key);
  }

  /** An accepted text is a printed form of a key exactly if it decodes to all of the key and no
      left-over bit is set. */
  lemma {:induction false} PrintedForms(s: bytes, key: Key)
    requires DecodedText(s).Some?
    ensures Encodes(s, key) <==> DecodedText(s) == Some(key) && LeftOverClear(s)
  {
    hide Encodes, SameButCase, ToHex, ToBase32z, Base64Chars, FromDigits, Base64Value, Base32zValue;
    FormLengths(s, key);
    if |s| == 64 {
      HexTexts(s, key);
    } else if |s| == 43 {
      Base64Key(s, key);
    } else if |s| == 44 {
      PaddedForm(s, key);
    } else if |s| == 52 {
      Base32zKey(s, key);
    }
  }

  lemma {:induction false} PaddedForm(s: bytes, key: Key)
    requires |s| == 44 && s[43] == EQUALS && IsBase64(s)
    ensures s == Base64Chars(key) + [EQUALS] <==> FromBase64(s) == key && LeftOverClear(s)
  {
    hide Base64Chars, FromDigits;
    Base64CharsValues(key);
    var chars := s[..43];
    assert s == chars + [EQUALS];
    if s[42] == EQUALS {
      assert chars[42] in chars;
      assert s == Base64Chars(key) + [EQUALS] ==> chars == Base64Chars(key);
    } else {
      assert StripPadding(s) == chars;
      Base64Key(chars, key);
      assert s == Base64Chars(key) + [EQUALS] ==> chars == Base64Chars(key);
    }
  }

  /** Of the accepted texts, exactly those that fill the key and leave no bit set are a form of
      some key. */
  lemma {:induction false} PrintedTexts(s: bytes)
    requires DecodedText(s).Some?
    ensures (exists key :: Encodes(s, key)) <==> |DecodedText(s).value| == 32 && LeftOverClear(s)
  {
    hide Encodes, DecodedText, LeftOverClear;
    if exists key :: Encodes(s, key) {
      var key :| Encodes(s, key);
      PrintedForms(s, key);
    }
    if |DecodedText(s).value| == 32 && LeftOverClear(s) {
      PrintedForms(s, DecodedText(s).value);
    }
  }

  /** Texts that are no form of any key but parse to one that is not null: 42 letters 'B' and "=="
      hold 31 bytes, and 43 letters 'B' leave a bit set. */
  lemma {:induction false} UnprintedTextsAccepted(s: bytes)
    requires s == seq(42, _ => 66) + [EQUALS, EQUALS] || s == seq(43, _ => 66)
    ensures DecodedText(s).Some? && ParsedPubkey(s) != NULL_KEY
    ensures forall key :: !Encodes(s, key)
  {
    var chars := StripPadding(s);
    assert |chars| >= 42 && forall i :: 0 <= i < |chars| ==> chars[i] == 66;
    assert IsBase64(s);
    var vals := Values(chars, Base64Value);
    LettersB(vals);
    assert !LeftOverClear(s);
    hide Encodes, LeftOverClear;
    PrintedTexts(s);
  }

  lemma {:induction false} AllFalse(b: seq<bool>)
    requires AllClear(b)
    ensures ValueOf(b) == 0
  {
    if b != [] {
      AllFalse(b[..|b| - 1]);
    }
  }

  /** Digits of value one start with the byte four. */
  lemma {:induction false} LettersB(vals: seq<nat>)
    requires |vals| >= 2 && vals[0] == 1 && vals[1] == 1
    ensures |FromDigits(vals, 6)| > 0 && FromDigits(vals, 6)[0] == 4
  {
    hide Flatten, Group;
    var one, more := BitsOf(1, 6), Flatten(vals[2..], 6);
    OneInSix();
    FlattenCons(1, [1] + vals[2..], 6);
    FlattenCons(1, vals[2..], 6);
    assert vals == [1] + ([1] + vals[2..]);
    var head, tail := one + one[..2], one[2..] + more;
    assert Flatten(vals, 6) == head + tail;
    GroupStep(head, tail, 8);
    assert head[..6] == one && head[..7] == one + [false] && head == head[..7] + [false];
    ShiftIn(one, false);
    ShiftIn(head[..7], false);
  }

  lemma {:induction false} OneInSix()
    ensures BitsOf(1, 6) == [false, false, false, false, false, true] && ValueOf(BitsOf(1, 6)) == 1
  {
    var zeros := [false, false, false, false, false];
    assert BitsOf(1, 6) == zeros + [true];
    AllFalse(zeros);
    ShiftIn(zeros, true);
  }

  lemma {:induction false} ShiftIn(b: seq<bool>, last: bool)
    ensures ValueOf(b + [last]) == 2 * ValueOf(b) + if last then 1 else 0
  {
    assert (b + [last])[..|b|] == b;
  }

  /** Of the texts of 64 characters, exactly the hex forms of a key parse to it, in any case. */
  lemma {:induction false} HexTextsOfKey(s: bytes, key: Key)
    requires |s| == 64 && key != NULL_KEY
    ensures ParsedPubkey(s) == key <==> SameButCase(s, ToHex(key))
  {
    if IsHex(s) {
      HexTexts(s, key);
    } else if SameButCase(s, ToHex(key)) {
      HexRoundTrip(key, s);
    }
  }
}
