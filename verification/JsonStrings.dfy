/**
  The strings the writer sends, as the parser reads them: which of them come
  back, which follow RFC 8259, and how many quotes they have.
*/
module JsonStrings {
  import opened Common
  import opened JsonSyntax
  import opened JsonEscape
  import opened JsonParser
  import opened JsonGrammar
  import opened JsonSound
  import opened JsonRfc
  import opened JsonUnique

  // ---------------------------------------------------------------------
  // The characters of what is sent
  // ---------------------------------------------------------------------

  function CharOf(c: Byte): Ch {
    match EscapeLetter(c)
    case Some(x) => Esc(x)
    case None => Raw(c)
  }

  function Lead(s: Text): seq<Ch>
    requires s != [] && s[0] > 0x80 && WideLength(s) > 0
  {
    if WideLength(s) == 2 then [Raw(s[0])] else [Raw(s[0]), Raw(s[1])]
  }

  /** A multi-byte character becomes its leading bytes and an escape. */
  function CharsOf(s: Text, signed: bool): seq<Ch>
  {
    if s == [] then []
    else if !IsWide(s[0], signed) then [CharOf(s[0])] + CharsOf(s[1..], signed)
    else if WideLength(s) == 0 then []
    else Lead(s) + [Uni(Hex4(CodePoint(s)))] + CharsOf(s[WideLength(s)..], signed)
  }

  lemma {:induction false} CharsConcat(a: seq<Ch>, b: seq<Ch>)
    ensures CharsText(a + b) == CharsText(a) + CharsText(b)
    ensures CharsOk(a + b) <==> CharsOk(a) && CharsOk(b)
    ensures CharsOk(a + b) ==> CharsValue(a + b) == CharsValue(a) + CharsValue(b)
  {
    hide ChText, ChValue, ChOk;
    if a == [] {
      assert a + b == b;
    } else {
      assert a + b == [a[0]] + (a[1..] + b) && a == [a[0]] + a[1..];
      assert (a + b)[1..] == a[1..] + b;
      CharsConcat(a[1..], b);
      FirstOk(a[0], a[1..]);
      FirstOk(a[0], a[1..] + b);
    }
  }

  lemma FirstOk(ch: Ch, rest: seq<Ch>)
    ensures CharsOk([ch] + rest) <==> ChOk(ch) && CharsOk(rest)
  {
    hide ChOk;
    assert ([ch] + rest)[0] == ch && ([ch] + rest)[1..] == rest;
    assert forall k :: 0 <= k < |rest| ==> ([ch] + rest)[k + 1] == rest[k];
  }

  lemma LeadFacts(s: Text)
    requires s != [] && s[0] > 0x80 && WideLength(s) > 0
    ensures CharsOk(Lead(s)) && CharsText(Lead(s)) == s[..WideLength(s) - 1] == CharsValue(Lead(s))
  {
    hide CharsText, CharsValue, CharsOk;
    OneChar(Raw(s[0]));
    if WideLength(s) == 3 {
      OneChar(Raw(s[1]));
      CharsConcat([Raw(s[0])], [Raw(s[1])]);
      assert Lead(s) == [Raw(s[0])] + [Raw(s[1])];
    }
  }

  lemma OneChar(ch: Ch)
    ensures CharsText([ch]) == ChText(ch)
    ensures CharsOk([ch]) <==> ChOk(ch)
    ensures ChOk(ch) ==> CharsValue([ch]) == ChValue(ch)
  {
    FirstOk(ch, []);
    assert [ch] + [] == [ch] && [ch][1..] == [];
  }

  lemma {:induction false} SentIsText(s: Text, signed: bool)
    requires Accepted(s, signed)
    ensures Sent(s, signed) == CharsText(CharsOf(s, signed))
    decreases s, 1
  {
    hide Hex4, CodePoint, WideLength, IsWide;
    if s != [] {
      if !IsWide(s[0], signed) {
        SentIsText(s[1..], signed);
        assert CharsOf(s, signed)[1..] == CharsOf(s[1..], signed);
        assert ChText(CharOf(s[0])) == EscapeChar(s[0]);
      } else {
        WideIsText(s, signed);
      }
    }
  }

  lemma {:induction false} WideIsText(s: Text, signed: bool)
    requires s != [] && IsWide(s[0], signed) && WideLength(s) > 0 && Accepted(s[WideLength(s)..], signed)
    ensures Sent(s, signed) == CharsText(CharsOf(s, signed))
    decreases s, 0
  {
    hide Hex4, CodePoint, WideLength;
    var n := WideLength(s);
    var uni := Uni(Hex4(CodePoint(s)));
    SentIsText(s[n..], signed);
    LeadFacts(s);
    CharsConcat(Lead(s) + [uni], CharsOf(s[n..], signed));
    CharsConcat(Lead(s), [uni]);
    OneChar(uni);
  }

  /** An accepted string is written as a quotation of those characters. */
  lemma QuotedIsText(s: Text, signed: bool)
    requires Accepted(s, signed)
    ensures Quoted(s, signed) == QuoteText(CharsOf(s, signed))
  {
    hide CharsText, CharsOf, Sent;
    SentIsText(s, signed);
    assert [QUOTE] + (Sent(s, signed) + [QUOTE]) == [QUOTE] + Sent(s, signed) + [QUOTE];
  }

  // ---------------------------------------------------------------------
  // Which character is escaped
  // ---------------------------------------------------------------------

  /** What a multi-byte character in UTF-8 escapes is the character itself. */
  lemma CodePointIsUtf8(s: Text)
    requires s != [] && s[0] > 0x80 && WideLength(s) > 0 && Utf8Decode(s[..WideLength(s)]) != -1
    ensures CodePoint(s) == Utf8Decode(s[..WideLength(s)])
  {
    var t := s[..WideLength(s)];
    assert t[0] == s[0] && t[1] == s[1] && (|t| == 3 ==> t[2] == s[2]);
  }

  /** The character a sequence of the two forms stands for, shortest or not. */
  predicate Spells(t: Text, u: int) {
    || (|t| == 2 && 0xC0 <= t[0] < 0xE0 && 0x80 <= t[1] < 0xC0 && u == 64 * (t[0] - 0xC0) as int + (t[1] - 0x80) as int)
    || (|t| == 3 && 0xE0 <= t[0] < 0xF0 && 0x80 <= t[1] < 0xC0 && 0x80 <= t[2] < 0xC0
        && u == 4096 * (t[0] - 0xE0) as int + 64 * (t[1] - 0x80) as int + (t[2] - 0x80) as int)
  }

  /** Two bytes that agree in their low bits; `m` is a power of two. */
  predicate SameLow(a: Byte, b: Byte, m: nat)
    requires m > 0
  {
    a % m == b % m
  }

  /**
    Bytes that do not belong to UTF-8 count with their low bits: five or four of
    the first byte, six of the others. Some sequence with those bits spells what
    is escaped.
  */
  lemma CodePointOfBits(s: Text) returns (t: Text)
    requires s != [] && s[0] > 0x80 && WideLength(s) > 0
    ensures |t| == WideLength(s) && Spells(t, CodePoint(s))
    ensures SameLow(t[0], s[0], if |t| == 2 then 32 else 16)
    ensures forall k :: 1 <= k < |t| ==> SameLow(t[k], s[k], 64)
  {
    var a: int, b: int := s[0] % 32, s[1] % 64;
    if WideLength(s) == 2 {
      t := [0xC0 + a, 0x80 + b];
    } else {
      t := [0xE0 + s[0] % 16, 0x80 + b, 0x80 + s[2] % 64];
    }
  }

  const HEX_DIGITS: string := "0123456789abcdef"
  const UPPER_DIGITS: string := "0123456789ABCDEF"

  /** The digits are the usual ones, lower case or upper case, and nothing else is one. */
  lemma HexDigitExact(c: Byte)
    ensures var d := HexDigit(c);
            if d == -1 then (c as char) !in HEX_DIGITS + UPPER_DIGITS
            else c as char == HEX_DIGITS[d] || c as char == UPPER_DIGITS[d]
  {
    var d := HexDigit(c);
    if d >= 0 {
      DigitChar(c, d);
    } else {
      forall k | 0 <= k < 16
        ensures HEX_DIGITS[k] != c as char && UPPER_DIGITS[k] != c as char
      {
        assert HexDigit(HEX_DIGITS[k] as int) == k && HexDigit(UPPER_DIGITS[k] as int) == k;
      }
    }
  }

  lemma DigitChar(c: Byte, d: nat)
    requires HexDigit(c) == d
    ensures d < 16 && (c as char == HEX_DIGITS[d] || c as char == UPPER_DIGITS[d])
  {
  }

  /** The number that hexadecimal digits write. */
  function HexValue(t: Text): nat
    requires forall k :: 0 <= k < |t| ==> HexDigit(t[k]) != -1
  {
    if t == [] then 0 else 16 * HexValue(t[..|t| - 1]) + HexDigit(t[|t| - 1])
  }

  predicate HexText(t: Text) {
    forall k :: 0 <= k < |t| ==> HexDigit(t[k]) != -1 && t[k] as char in HEX_DIGITS
  }

  /** A code point is sent as a backslash, the letter u and four digits that write it. */
  lemma EscapeIsNumber(s: Text)
    requires s != [] && s[0] > 0x80 && WideLength(s) > 0
    ensures var t := Escape(s);
            && |t| == 6 && t[0] as char == '\\' && t[1] as char == 'u'
            && HexText(t[2..]) && HexValue(t[2..]) == CodePoint(s)
  {
    hide HexText, HexValue, Hex4;
    Hex4IsNumber(CodePoint(s));
    assert Escape(s)[2..] == Hex4(CodePoint(s));
  }

  lemma Hex4IsNumber(u: nat)
    requires u < 0x10000
    ensures HexText(Hex4(u)) && HexValue(Hex4(u)) == u
  {
    hide HexChar, HexDigit, HexValue;
    var h := Hex4(u);
    HexCharDigit(u / 256 / 16);
    HexCharDigit(u / 256 % 16);
    HexCharDigit(u % 256 / 16);
    HexCharDigit(u % 256 % 16);
    assert h == [HexChar(u / 256 / 16), HexChar(u / 256 % 16), HexChar(u % 256 / 16), HexChar(u % 256 % 16)];
    FourDigits(h);
  }

  lemma HexCharDigit(d: nat)
    requires d < 16
    ensures HexDigit(HexChar(d)) == d && HexChar(d) as char == HEX_DIGITS[d]
  {
  }

  lemma FourDigits(t: Text)
    requires |t| == 4 && forall k :: 0 <= k < 4 ==> HexDigit(t[k]) != -1
    ensures HexValue(t) == 4096 * HexDigit(t[0]) + 256 * HexDigit(t[1]) + 16 * HexDigit(t[2]) + HexDigit(t[3])
  {
    hide HexDigit;
    assert t[..3][..2] == t[..2] && t[..2][..1] == t[..1] && t[..1][..0] == [];
    assert HexValue(t[..1]) == HexDigit(t[0]);
    assert HexValue(t[..2]) == 16 * HexValue(t[..1]) + HexDigit(t[1]);
    assert HexValue(t[..3]) == 16 * HexValue(t[..2]) + HexDigit(t[2]);
  }

  /** The escapes of section 7 of RFC 8259, in both directions. */
  lemma EscapeTable(c: Byte, letter: char)
    requires (c, letter) in {(0x22, '"'), (0x5C, '\\'), (0x2F, '/'), (0x08, 'b'), (0x0C, 'f'), (0x0A, 'n'), (0x0D, 'r'),
                             (0x09, 't')}
    ensures EscapeLetter(c) == Some(letter as int) && SimpleEscape(letter as int) == Some(c)
  {
  }

  /** There are no others. */
  lemma NoOtherEscape(c: Byte)
    ensures EscapeLetter(c).Some? <==> c in {0x22, 0x5C, 0x2F, 0x08, 0x0C, 0x0A, 0x0D, 0x09}
    ensures SimpleEscape(c).Some? <==> c as char in {'"', '\\', '/', 'b', 'f', 'n', 'r', 't'}
  {
  }

  // ---------------------------------------------------------------------
  // UTF-8 where characters are unsigned
  // ---------------------------------------------------------------------

  /** A character other than NUL that UTF-8 encodes in up to three bytes. */
  predicate ShortChar(ch: nat) {
    0 < ch < 0x10000 && !(0xD800 <= ch <= 0xDFFF)
  }

  function Encoded(chars: seq<nat>): Text
    requires forall k :: 0 <= k < |chars| ==> ShortChar(chars[k])
  {
    if chars == [] then [] else OneEncoded(chars[0]) + Encoded(chars[1..])
  }

  function OneEncoded(ch: nat): (t: Text)
    requires ShortChar(ch)
    ensures t != []
  {
    if ch < 0x80 then [ch] else Utf8(ch)
  }

  /** Each character beyond ASCII becomes its bytes but the last, and then its number. */
  function Shown(chars: seq<nat>): Text
    requires forall k :: 0 <= k < |chars| ==> ShortChar(chars[k])
  {
    if chars == [] then [] else OneShown(chars[0]) + Shown(chars[1..])
  }

  function OneShown(ch: nat): Text
    requires ShortChar(ch)
  {
    if ch < 0x80 then EscapeChar(ch) else Utf8(ch)[..|Utf8(ch)| - 1] + ([BACKSLASH, 117] + Hex4(ch))
  }

  /** Every text in UTF-8 whose characters have up to three bytes is accepted, and sent in this way. */
  lemma {:induction false} SentOfUtf8(chars: seq<nat>)
    requires forall k :: 0 <= k < |chars| ==> ShortChar(chars[k])
    ensures Accepted(Encoded(chars), false) && Sent(Encoded(chars), false) == Shown(chars)
  {
    hide OneEncoded, OneShown, Sent, Accepted;
    if chars == [] {
      SentEnd([], false);
    } else {
      SentOfUtf8(chars[1..]);
      OneSent(chars[0], Encoded(chars[1..]));
    }
  }

  lemma OneSent(ch: nat, rest: Text)
    requires ShortChar(ch) && Accepted(rest, false)
    ensures Accepted(OneEncoded(ch) + rest, false)
    ensures Sent(OneEncoded(ch) + rest, false) == OneShown(ch) + Sent(rest, false)
  {
    hide Hex4;
    var s := OneEncoded(ch) + rest;
    if ch < 0x80 {
      assert s[1..] == rest;
    } else {
      OneWide(ch, rest);
      assert s[|Utf8(ch)|..] == rest && s[..|Utf8(ch)| - 1] == Utf8(ch)[..|Utf8(ch)| - 1];
    }
  }

  lemma OneWide(ch: nat, rest: Text)
    requires ShortChar(ch) && ch >= 0x80
    ensures var s := Utf8(ch) + rest;
            IsWide(s[0], false) && WideLength(s) == |Utf8(ch)| && CodePoint(s) == ch
  {
    var s := Utf8(ch) + rest;
    assert s[..|Utf8(ch)|] == Utf8(ch);
    assert s[0] == Utf8(ch)[0] && s[1] == Utf8(ch)[1] && (|Utf8(ch)| == 3 ==> s[2] == Utf8(ch)[2]);
    Utf8Range(ch);
    Utf8RoundTrip(ch);
    CodePointIsUtf8(s);
  }

  lemma Utf8Range(ch: nat)
    requires 0x80 <= ch < 0x10000
    ensures var t := Utf8(ch);
            && (forall k :: 1 <= k < |t| ==> 0x80 <= t[k] < 0xC0)
            && (if |t| == 2 then 0xC2 <= t[0] < 0xE0 else 0xE0 <= t[0] < 0xF0)
  {
  }

  // ---------------------------------------------------------------------
  // What they are read as
  // ---------------------------------------------------------------------

  /** No byte takes the branch of multi-byte characters. */
  predicate NoneWide(s: Text, signed: bool) {
    forall k :: 0 <= k < |s| ==> !IsWide(s[k], signed)
  }

  lemma {:induction false} NoneWideAccepted(s: Text, signed: bool)
    requires NoneWide(s, signed)
    ensures Accepted(s, signed)
  {
    hide IsWide;
    if s != [] {
      NoneWideAccepted(s[1..], signed);
    }
  }

  lemma EscapeInverse(c: Byte)
    requires c != 0
    ensures ChOk(CharOf(c)) && ChValue(CharOf(c)) == [c]
  {
  }

  /** What the characters are read as, if they are accepted. */
  predicate ReadsAs(chars: seq<Ch>, s: Text) {
    CharsOk(chars) && CStr(CharsValue(chars)) == s
  }

  lemma {:induction false} CStrLead(a: Text, b: Text)
    requires 0 !in a
    ensures CStr(a + b) == a + CStr(b)
  {
    if a == [] {
      assert a + b == b;
    } else {
      assert (a + b)[1..] == a[1..] + b;
      CStrLead(a[1..], b);
    }
  }

  /** The four digits are read as the code point, unless one of its bytes is zero. */
  lemma HexRead(u: nat)
    requires u < 0x10000
    ensures UnicodeAt(Hex4(u), 0, 4) >= 0 ==> UnicodeAt(Hex4(u), 0, 4) == u
  {
    hide Hex2, HexPair;
    Hex2Read(u / 256);
    Hex2Read(u % 256);
  }

  lemma Hex2Read(b: Byte)
    ensures HexPair(Hex2(b)[0], Hex2(b)[1]) == b
  {
  }

  /** If an encoding starts with the last byte of the character, it goes on with continuation bytes above 0x80. */
  lemma EncodingGoesOn(s: Text)
    requires s != [] && s[0] > 0x80 && WideLength(s) > 0 && 0x100 <= CodePoint(s)
    ensures GoesOn(Utf8(CodePoint(s)), s[WideLength(s) - 1])
  {
    if WideLength(s) == 2 {
      GoesOnAfterOne(s[0], s[1]);
    } else {
      GoesOnAfterTwo(s[0], s[1], s[2]);
    }
  }

  predicate GoesOn(enc: Text, last: Byte)
    requires 2 <= |enc| <= 3
  {
    enc[0] == last ==> 0x80 <= enc[1] < 0xC0 && (enc[1] == 0x80 ==> |enc| == 3 && 0x80 < enc[2] < 0xC0)
  }

  lemma GoesOnAfterOne(a: int, b: Byte)
    requires 0xC0 <= a < 0xE0 && b >= 0x80 && a % 32 * 64 + b % 64 >= 0x100
    ensures GoesOn(Utf8(a % 32 * 64 + b % 64), b)
  {
    var u := a % 32 * 64 + b % 64;
    assert u / 64 == a % 32 && u % 64 == b % 64;
  }

  lemma Base64(x: int, y: int, z: int)
    requires 0 <= x < 16 && 0 <= y < 64 && 0 <= z < 64
    ensures var u := x * 4096 + y * 64 + z;
            0 <= u < 0x10000 && u / 64 == x * 64 + y && u % 64 == z && u / 4096 == x && u / 64 % 64 == y
  {
  }

  /** The bytes of a code point whose last six bits come from the byte it would start with. */
  lemma GoesOnAfterTwo(a: int, b: int, c: Byte)
    requires 0xE0 <= a < 0x100 && 0x80 <= b < 0x100 && c >= 0x80 && a % 16 * 4096 + b % 64 * 64 + c % 64 >= 0x100
    ensures GoesOn(Utf8(a % 16 * 4096 + b % 64 * 64 + c % 64), c)
  {
    Base64(a % 16, b % 64, c % 64);
    GoesOnFrom(a % 16, b % 64, c % 64, a % 16 * 4096 + b % 64 * 64 + c % 64, c);
  }

  lemma GoesOnFrom(x: int, y: int, z: int, u: nat, c: Byte)
    requires 0 <= x < 16 && 0 <= y < 64 && 0 <= z < 64 && c >= 0x80 && z == c % 64
    requires 0x100 <= u < 0x10000 && u == x * 4096 + y * 64 + z
    requires u / 64 == x * 64 + y && u % 64 == z && u / 4096 == x && u / 64 % 64 == y
    ensures GoesOn(Utf8(u), c)
  {
  }

  /**
    After the leading bytes, the code point's encoding takes the place of the
    last byte and would have to go on into the next character.
  */
  lemma NotItsOwnEncoding(s: Text, rest: Text, more: Text)
    requires s != [] && s[0] > 0x80 && WideLength(s) > 0 && rest == s[WideLength(s)..] && Accepted(rest, false)
    requires 0x100 <= CodePoint(s)
    ensures Utf8(CodePoint(s)) + more != s[WideLength(s) - 1..]
  {
    hide Accepted, CodePoint, WideLength, Utf8;
    var enc, last := Utf8(CodePoint(s)), s[WideLength(s) - 1..];
    var t := enc + more;
    EncodingGoesOn(s);
    RestStart(rest);
    assert t[0] == enc[0] && t[1] == enc[1] && (|enc| == 3 ==> t[2] == enc[2]);
    assert last == [s[WideLength(s) - 1]] + rest;
  }

  /** A continuation byte above 0x80 does not start a character, not even after 0x80. */
  lemma RestStart(rest: Text)
    requires Accepted(rest, false)
    ensures |rest| > 0 ==> !(0x80 < rest[0] < 0xC0)
    ensures |rest| > 1 && rest[0] == 0x80 ==> !(0x80 < rest[1] < 0xC0)
  {
  }

  /** A string that was written completely is read as itself, if and only if no byte of it took that branch. */
  lemma {:induction false} StringReads(s: Text, signed: bool)
    requires Accepted(s, signed) && 0 !in s
    ensures ReadsAs(CharsOf(s, signed), s) <==> NoneWide(s, signed)
  {
    hide CharsOk, CharsValue, CStr, ChOk, ChValue, CodePoint, Hex4, IsWide, NoneWide;
    if s == [] {
      NoneReads(signed);
    } else if IsWide(s[0], signed) {
      WideDiffers(s, signed);
    } else {
      StringReads(s[1..], signed);
      NarrowFirst(s, signed);
    }
  }

  lemma NoneReads(signed: bool)
    ensures ReadsAs([], []) && NoneWide([], signed)
  {
  }

  lemma NarrowFirst(s: Text, signed: bool)
    requires s != [] && s[0] != 0 && !IsWide(s[0], signed)
    ensures NoneWide(s, signed) <==> NoneWide(s[1..], signed)
    ensures ReadsAs(CharsOf(s, signed), s) <==> ReadsAs(CharsOf(s[1..], signed), s[1..])
  {
    hide CharsOk, CharsValue, CStr, CharOf, ReadsAs, NoneWide, IsWide;
    NarrowTail(s, signed);
    ReadsFirst(s[0], CharsOf(s[1..], signed), s[1..]);
    assert s == [s[0]] + s[1..];
  }

  lemma NarrowTail(s: Text, signed: bool)
    requires s != [] && !IsWide(s[0], signed)
    ensures NoneWide(s, signed) <==> NoneWide(s[1..], signed)
  {
    assert forall k :: 0 < k < |s| ==> s[k] == s[1..][k - 1];
  }

  lemma ReadsFirst(c: Byte, chars: seq<Ch>, s: Text)
    requires c != 0
    ensures ReadsAs([CharOf(c)] + chars, [c] + s) <==> ReadsAs(chars, s)
  {
    hide CharsOk, CharsValue, CStr, ChOk, ChValue, CharOf;
    EscapeInverse(c);
    FirstOk(CharOf(c), chars);
    if CharsOk(chars) {
      FirstChar(CharOf(c), chars);
      var v := CharsValue(chars);
      CStrLead([c], v);
      SameTail([c], CStr(v), s);
    }
  }

  lemma WideDiffers(s: Text, signed: bool)
    requires s != [] && IsWide(s[0], signed) && Accepted(s, signed)
    ensures !ReadsAs(CharsOf(s, signed), s) && !NoneWide(s, signed)
  {
    hide CharsOk, CharsValue, CStr, Hex4, CodePoint, WideLength, ChText, CharsText;
    var n := WideLength(s);
    var rest := CharsOf(s[n..], signed);
    var uni := Uni(Hex4(CodePoint(s)));
    LeadFacts(s);
    CharsConcat(Lead(s) + [uni], rest);
    CharsConcat(Lead(s), [uni]);
    OneChar(uni);
    HexRead(CodePoint(s));
    if CharsOk(CharsOf(s, signed)) {
      var enc, v := Utf8(CodePoint(s)), CharsValue(rest);
      assert CharsValue(CharsOf(s, signed)) == s[..n - 1] + (enc + v);
      CStrLead(s[..n - 1], enc + v);
      CStrLead(enc, v);
      NotItsOwnEncoding(s, s[n..], CStr(v));
      assert s[..n - 1] + s[n - 1..] == s;
      SameTail(s[..n - 1], enc + CStr(v), s[n - 1..]);
    }
  }

  lemma SameTail(a: Text, x: Text, y: Text)
    ensures a + x == a + y <==> x == y
  {
    assert (a + x)[|a|..] == x && (a + y)[|a|..] == y;
  }

  lemma {:induction false} CharsOfSyn(s: Text, signed: bool)
    ensures SynChars(CharsOf(s, signed))
  {
    hide CodePoint;
    if s != [] && !IsWide(s[0], signed) {
      CharsOfSyn(s[1..], signed);
    } else if s != [] && WideLength(s) > 0 {
      CharsOfSyn(s[WideLength(s)..], signed);
    }
  }

  // ---------------------------------------------------------------------
  // Which follow RFC 8259
  // ---------------------------------------------------------------------

  /** Control characters are written as they are, except those with an escape of their own. */
  predicate Escaped(s: Text) {
    forall k :: 0 <= k < |s| ==> s[k] >= 0x20 || EscapeLetter(s[k]).Some?
  }

  lemma {:induction false} CharsOfRfc(s: Text, signed: bool)
    requires Accepted(s, signed)
    ensures RfcChars(CharsOf(s, signed)) <==> Escaped(s)
    decreases s, 1
  {
    hide Hex4, CodePoint, RfcChar, EscapeLetter, CharOf;
    if s != [] {
      if !IsWide(s[0], signed) {
        CharsOfRfc(s[1..], signed);
        RfcFirst(s, signed);
      } else {
        WideRfc(s, signed);
      }
    }
  }

  lemma RfcFirst(s: Text, signed: bool)
    requires s != [] && !IsWide(s[0], signed)
    ensures RfcChars(CharsOf(s, signed)) <==>
            RfcChars(CharsOf(s[1..], signed)) && (s[0] >= 0x20 || EscapeLetter(s[0]).Some?)
    ensures Escaped(s) <==> Escaped(s[1..]) && (s[0] >= 0x20 || EscapeLetter(s[0]).Some?)
  {
    hide RfcChars, Escaped, IsWide;
    RfcCharsSplit([CharOf(s[0])], CharsOf(s[1..], signed));
    RfcOne(s[0]);
    assert s == [s[0]] + s[1..];
    EscapedSplit([s[0]], s[1..]);
  }

  lemma RfcOne(c: Byte)
    ensures RfcChars([CharOf(c)]) <==> c >= 0x20 || EscapeLetter(c).Some?
    ensures Escaped([c]) <==> c >= 0x20 || EscapeLetter(c).Some?
  {
    var chars := [CharOf(c)];
    assert RfcChars(chars) <==> RfcChar(chars[0]);
    assert Escaped([c]) <==> [c][0] >= 0x20 || EscapeLetter([c][0]).Some?;
  }

  lemma RfcCharsSplit(a: seq<Ch>, b: seq<Ch>)
    ensures RfcChars(a + b) <==> RfcChars(a) && RfcChars(b)
  {
    hide RfcChar;
    assert forall k :: 0 <= k < |a| ==> (a + b)[k] == a[k];
    assert forall k :: 0 <= k < |b| ==> (a + b)[|a| + k] == b[k];
  }

  lemma EscapedSplit(a: Text, b: Text)
    ensures Escaped(a + b) <==> Escaped(a) && Escaped(b)
  {
    hide EscapeLetter;
    assert forall k :: 0 <= k < |a| ==> (a + b)[k] == a[k];
    assert forall k :: 0 <= k < |b| ==> (a + b)[|a| + k] == b[k];
  }

  lemma {:induction false} WideRfc(s: Text, signed: bool)
    requires s != [] && IsWide(s[0], signed) && Accepted(s, signed)
    ensures RfcChars(CharsOf(s, signed)) <==> Escaped(s)
    decreases s, 0
  {
    hide Hex4, CodePoint, EscapeLetter, WideLength;
    var n := WideLength(s);
    var uni, rest := Uni(Hex4(CodePoint(s))), CharsOf(s[n..], signed);
    CharsOfRfc(s[n..], signed);
    HexIsRfc(CodePoint(s));
    assert RfcChars(Lead(s) + [uni]);
    RfcCharsSplit(Lead(s) + [uni], rest);
    assert s == s[..n] + s[n..] && Escaped(s[..n]);
    EscapedSplit(s[..n], s[n..]);
  }

  lemma HexIsRfc(u: nat)
    requires u < 0x10000
    ensures RfcChar(Uni(Hex4(u)))
  {
  }

  // ---------------------------------------------------------------------
  // Quotes
  // ---------------------------------------------------------------------

  function Quotes(t: Text): nat {
    if t == [] then 0 else (if t[0] == QUOTE then 1 else 0) + Quotes(t[1..])
  }

  lemma {:induction false} QuotesConcat(a: Text, b: Text)
    ensures Quotes(a + b) == Quotes(a) + Quotes(b)
  {
    if a == [] {
      assert a + b == b;
    } else {
      assert (a + b)[1..] == a[1..] + b;
      QuotesConcat(a[1..], b);
    }
  }

  lemma {:induction false} NoQuotes(t: Text)
    requires QUOTE !in t
    ensures Quotes(t) == 0
  {
    if t != [] {
      NoQuotes(t[1..]);
    }
  }

  /** Sending a string adds no quotes to its own. */
  lemma {:induction false} SentQuotes(s: Text, signed: bool)
    ensures Quotes(Sent(s, signed)) <= Quotes(s)
    decreases s, 1
  {
    hide WideLength, Escape, Waits;
    if s != [] {
      if !IsWide(s[0], signed) {
        SentQuotes(s[1..], signed);
        QuotesConcat(EscapeChar(s[0]), Sent(s[1..], signed));
        QuotesConcat([s[0]], Sent(s[1..], signed));
        EscapeQuotes(s[0]);
      } else if WideLength(s) > 0 {
        WideQuotes(s, signed);
      }
    }
  }

  lemma EscapeQuotes(c: Byte)
    ensures Quotes(EscapeChar(c)) == Quotes([c]) == if c == QUOTE then 1 else 0
  {
    assert [c][1..] == [];
    var t := EscapeChar(c);
    if |t| == 2 {
      assert t[1..] == [t[1]] && t[1..][1..] == [];
    } else {
      assert t[1..] == [];
    }
  }

  lemma {:induction false} WideQuotes(s: Text, signed: bool)
    requires s != [] && IsWide(s[0], signed) && WideLength(s) > 0
    ensures Quotes(Sent(s, signed)) <= Quotes(s)
    decreases s, 0
  {
    hide WideLength, Escape;
    var n := WideLength(s);
    var rest := Sent(s[n..], signed);
    SentQuotes(s[n..], signed);
    EscapeNoQuote(s);
    NoQuotes(s[..n - 1]);
    NoQuotes(Escape(s));
    QuotesConcat(s[..n - 1] + Escape(s), rest);
    QuotesConcat(s[..n - 1], Escape(s));
    QuotesConcat(s[..n], s[n..]);
    assert s == s[..n] + s[n..];
  }

  lemma EscapeNoQuote(s: Text)
    requires s != [] && s[0] > 0x80 && WideLength(s) > 0
    ensures QUOTE !in Escape(s) && QUOTE !in s[..WideLength(s) - 1]
  {
    hide CodePoint;
  }

  /** Reading makes as many quotes as the characters are spelled with. */
  lemma {:induction false} CharsQuotes(chars: seq<Ch>)
    requires CharsOk(chars)
    ensures Quotes(CharsText(chars)) == Quotes(CharsValue(chars))
  {
    hide ChText, ChValue, ChOk;
    if chars != [] {
      CharsQuotes(chars[1..]);
      QuotesConcat(ChText(chars[0]), CharsText(chars[1..]));
      QuotesConcat(ChValue(chars[0]), CharsValue(chars[1..]));
      ChQuotes(chars[0]);
    }
  }

  lemma ChQuotes(ch: Ch)
    requires ChOk(ch)
    ensures Quotes(ChText(ch)) == Quotes(ChValue(ch))
  {
    match ch
    case Raw(c) =>
    case Esc(letter) =>
      assert ChText(ch)[1..] == [letter] && [letter][1..] == [];
      assert ChValue(ch)[1..] == [];
    case Uni(hex) =>
      assert forall k :: 0 <= k < 4 ==> HexDigit(hex[k]) != -1;
      NoQuotes(ChText(ch));
      NoQuotes(ChValue(ch));
  }

  lemma CStrQuotes(t: Text)
    ensures Quotes(CStr(t)) <= Quotes(t)
  {
    var c := CStr(t);
    assert t == c + t[|c|..];
    QuotesConcat(c, t[|c|..]);
  }

  /** What is sent for a string has no more quotes than what is read as it, and one less if a byte was refused. */
  lemma QuotedQuotes(s: Text, signed: bool, chars: seq<Ch>)
    requires ReadsAs(chars, s)
    ensures Quotes(Quoted(s, signed)) + (if Accepted(s, signed) then 0 else 1) <= Quotes(QuoteText(chars))
  {
    hide Sent, Accepted, CharsText, CharsValue, CharsOk, CStr, Quotes;
    SentQuotes(s, signed);
    CharsQuotes(chars);
    CStrQuotes(CharsValue(chars));
    OneQuote();
    QuotesConcat([QUOTE], Sent(s, signed));
    QuotesConcat([QUOTE] + Sent(s, signed), if Accepted(s, signed) then [QUOTE] else []);
    QuotesConcat([QUOTE], CharsText(chars) + [QUOTE]);
    QuotesConcat(CharsText(chars), [QUOTE]);
  }

  lemma OneQuote()
    ensures Quotes([QUOTE]) == 1 && Quotes([]) == 0
  {
    assert [QUOTE][1..] == [];
  }
}
