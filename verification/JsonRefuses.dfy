/**
  The parser refuses exactly the flawed texts, each with the code of its flaw.
*/
module JsonRefuses {
  import opened Common
  import opened JsonSyntax
  import opened JsonParser
  import opened JsonGrammar
  import opened JsonAccepts
  import opened JsonSound
  import opened JsonStrings
  import opened JsonFlaws

  /** The text `t` is all of the buffer from position `i` on. */
  predicate EndsAt(b: Text, i: nat, t: Text) {
    At(b, i, t) && i + |t| == Size(b)
  }

  lemma EndsSplit(b: Text, i: nat, s: Text, t: Text)
    requires EndsAt(b, i, s + t)
    ensures At(b, i, s) && EndsAt(b, i + |s|, t)
  {
    hide At;
    AtSplit(b, i, s, t);
  }

  /** Nothing is left, or the next character is this one. */
  lemma EndsHead(b: Text, i: nat, t: Text)
    requires EndsAt(b, i, t)
    ensures IsBuffer(b) && i <= Size(b) && (t == [] ==> i == Size(b)) && (t != [] ==> i < Size(b) && b[i] == t[0])
  {
    if t != [] {
      AtHead(b, i, t);
    }
  }

  // ---------------------------------------------------------------------
  // Flawed strings are refused
  // ---------------------------------------------------------------------

  lemma {:induction false} ScanBody(b: Text, p: nat, body: Text, escaped: bool)
    requires At(b, p, body) && Body(body)
    ensures FindQuote(b, p, escaped) == FindQuote(b, p + |body|, escaped || BACKSLASH in body)
    decreases |body|
  {
    hide At;
    if body != [] {
      AtHead(b, p, body);
      var n := if body[0] == BACKSLASH then 2 else 1;
      assert body == body[..n] + body[n..];
      AtSplit(b, p, body[..n], body[n..]);
      ScanBody(b, p + n, body[n..], escaped || body[0] == BACKSLASH);
    }
  }

  lemma {:induction false} UnescapePrefix(b: Text, p: nat, chars: seq<Ch>, to: nat)
    requires CharsOk(chars) && At(b, p, CharsText(chars)) && p + |CharsText(chars)| <= to <= Size(b) && Paired(b, p, to)
    ensures var q := p + |CharsText(chars)|;
            Paired(b, q, to) && (Unescape(b, q, to).Invalid? ==> Unescape(b, p, to) == Unescape(b, q, to))
    decreases |chars|
  {
    hide Unescape, Paired, ChText, ChOk, At;
    if chars != [] {
      var ch, rest := chars[0], chars[1..];
      AtSplit(b, p, ChText(ch), CharsText(rest));
      PairedCh(b, p, ch, to);
      UnescapePrefix(b, p + |ChText(ch)|, rest, to);
    }
  }

  lemma PairedCh(b: Text, p: nat, ch: Ch, to: nat)
    requires ChOk(ch) && At(b, p, ChText(ch)) && p + |ChText(ch)| <= to <= Size(b) && Paired(b, p, to)
    ensures var q := p + |ChText(ch)|;
            Paired(b, q, to) && (Unescape(b, q, to).Invalid? ==> Unescape(b, p, to) == Unescape(b, q, to))
  {
    hide SimpleEscape, Utf8, UnicodeAt, At;
    AtHead(b, p, ChText(ch));
    match ch
    case Raw(c) =>
    case Esc(letter) =>
      AtIndex(b, p, ChText(ch), 1);
      NotUnicode(letter);
    case Uni(hex) =>
      AtIndex(b, p, ChText(ch), 1);
      PairedUnicode(b, p, hex, to);
  }

  lemma PairedUnicode(b: Text, p: nat, hex: Text, to: nat)
    requires |hex| == 4 && UnicodeAt(hex, 0, 4) >= 0 && At(b, p, [BACKSLASH, 117] + hex) && p + 6 <= to <= Size(b)
    requires Paired(b, p, to)
    ensures b[p] == BACKSLASH && b[p + 1] == 117 && UnicodeAt(b, p + 2, to) >= 0 && Paired(b, p + 6, to)
  {
    hide UnicodeAt, At;
    var t := [BACKSLASH, 117] + hex;
    AtIndex(b, p, t, 0);
    AtIndex(b, p, t, 1);
    AtSplit(b, p, [BACKSLASH, 117], hex);
    HexIsPlain(hex);
    forall k | p + 2 <= k < p + 6
      ensures b[k] != BACKSLASH
    {
      AtIndex(b, p + 2, hex, k - (p + 2));
    }
    PairedSkip(b, p + 2, p + 6, to);
    UnicodeHere(b, p + 2, to, hex);
  }

  /** Four digits are decoded exactly if their number can be. */
  lemma UnicodeExact(hex: Text)
    requires |hex| == 4
    ensures UnicodeAt(hex, 0, 4) == if GoodUnicode(hex) then HexValue(hex) else STRING_INVALID_ESC
  {
    hide HexDigit, HexValue;
    if forall k :: 0 <= k < 4 ==> HexDigit(hex[k]) != -1 {
      FourDigits(hex);
      HexRange(hex);
    }
  }

  lemma HexRange(hex: Text)
    requires |hex| == 4
    ensures forall k :: 0 <= k < 4 ==> -1 <= HexDigit(hex[k]) < 16
  {
  }

  lemma LetterExact(c: Byte)
    ensures SimpleEscape(c).Some? <==> IsEscapeLetter(c)
    ensures IsEscapeLetter(c) ==> c != 117
  {
  }

  lemma BadEscapeFails(b: Text, q: nat, bad: Text, to: nat)
    requires bad != [] && At(b, q, [BACKSLASH] + bad) && to == q + 1 + |bad| && Paired(b, q, to)
    requires EscapeCode(bad) != JSON_OK
    ensures Unescape(b, q, to) == Invalid(EscapeCode(bad))
  {
    hide At, SimpleEscape, GoodUnicode, IsEscapeLetter, UnicodeAt;
    AtIndex(b, q, [BACKSLASH] + bad, 0);
    AtIndex(b, q, [BACKSLASH] + bad, 1);
    LetterExact(bad[0]);
    if bad[0] == 117 {
      AtSplit(b, q, [BACKSLASH], bad);
      UnicodeFails(b, q + 1, bad, to);
    }
  }

  lemma UnicodeFails(b: Text, p: nat, bad: Text, to: nat)
    requires bad != [] && bad[0] == 117 && At(b, p, bad) && to == p + |bad| && EscapeCode(bad) != JSON_OK
    ensures UnicodeAt(b, p + 1, to) == EscapeCode(bad) < 0
  {
    hide At, GoodUnicode;
    if |bad| >= 5 {
      var hex := bad[1..5];
      assert bad == bad[..1] + (hex + bad[5..]);
      AtSplit(b, p, bad[..1], hex + bad[5..]);
      AtSplit(b, p + 1, hex, bad[5..]);
      UnicodeHere(b, p + 1, to, hex);
      UnicodeExact(hex);
    }
  }

  /** A string with a flaw is refused with its code. */
  lemma StringFails(b: Text, i: nat, flaw: StringFlaw)
    requires StringFlawOk(flaw) && EndsAt(b, i, [QUOTE] + StringFlawText(flaw))
    ensures i < Size(b) && b[i] == QUOTE && PString(b, i) == Err(StringFlawCode(flaw))
  {
    hide At, Body, CharsOk, CharsText, Unescape, EscapeCode;
    EndsHead(b, i, [QUOTE] + StringFlawText(flaw));
    EndsSplit(b, i, [QUOTE], StringFlawText(flaw));
    match flaw
    case LineFeed(body, rest) =>
      EndsSplit(b, i + 1, body, [LF] + rest);
      ScanBody(b, i + 1, body, false);
      EndsHead(b, i + 1 + |body|, [LF] + rest);
    case NoQuote(body, last) =>
      EndsSplit(b, i + 1, body, last);
      ScanBody(b, i + 1, body, false);
      EndsHead(b, i + 1 + |body|, last);
    case BadEscape(chars, bad, rest) => EscapeFails(b, i, chars, bad, rest);
  }

  lemma EscapeFails(b: Text, i: nat, chars: seq<Ch>, bad: Text, rest: Text)
    requires StringFlawOk(BadEscape(chars, bad, rest))
    requires EndsAt(b, i + 1, StringFlawText(BadEscape(chars, bad, rest))) && i < Size(b)
    ensures PString(b, i) == Err(EscapeCode(bad))
  {
    hide EndsAt, Body, CharsOk, CharsText, Unescape, EscapeCode, Paired, FindQuote;
    var body := CharsText(chars) + ([BACKSLASH] + bad);
    var to := i + 1 + |body|;
    EndsSplit(b, i + 1, body, [QUOTE] + rest);
    EndsHead(b, to, [QUOTE] + rest);
    BodyScanned(b, i + 1, CharsText(chars), bad, to);
    EscapeHere(b, i + 1, chars, bad, to);
  }

  /** The quote is found at the end of the body, and an escape has been seen. */
  lemma BodyScanned(b: Text, p: nat, t: Text, bad: Text, to: nat)
    requires At(b, p, t + ([BACKSLASH] + bad)) && Body(t + ([BACKSLASH] + bad)) && to == p + |t + ([BACKSLASH] + bad)|
    requires to < Size(b) && b[to] == QUOTE
    ensures FindQuote(b, p, false) == Ok(true, to)
  {
    hide At, Body;
    var body := t + ([BACKSLASH] + bad);
    assert body[|t|] == BACKSLASH;
    ScanBody(b, p, body, false);
    QuoteHere(b, to);
  }

  lemma QuoteHere(b: Text, to: nat)
    requires IsBuffer(b) && to < Size(b) && b[to] == QUOTE
    ensures FindQuote(b, to, true) == Ok(true, to)
  {
  }

  lemma EscapeHere(b: Text, p: nat, chars: seq<Ch>, bad: Text, to: nat)
    requires CharsOk(chars) && bad != [] && EscapeCode(bad) != JSON_OK
    requires At(b, p, CharsText(chars) + ([BACKSLASH] + bad)) && to == p + |CharsText(chars)| + 1 + |bad| <= Size(b)
    requires Paired(b, p, to)
    ensures Unescape(b, p, to) == Invalid(EscapeCode(bad))
  {
    hide At, CharsOk, CharsText, Unescape, EscapeCode, Paired;
    AtSplit(b, p, CharsText(chars), [BACKSLASH] + bad);
    UnescapePrefix(b, p, chars, to);
    BadEscapeFails(b, p + |CharsText(chars)|, bad, to);
  }

  // ---------------------------------------------------------------------
  // Flawed numbers and literals are refused
  // ---------------------------------------------------------------------

  lemma NumberEndAt(b: Text, i: nat, j: nat)
    requires IsBuffer(b) && i <= j <= Size(b) && (forall k :: i <= k < j ==> IsNumberChar(b[k]))
    requires j < Size(b) ==> !IsNumberChar(b[j])
    ensures NumberEnd(b, i) == j
  {
  }

  lemma RunChars(b: Text, i: nat, run: Text)
    requires At(b, i, run) && NumberRun(run)
    ensures forall k :: i <= k < i + |run| ==> IsNumberChar(b[k])
  {
    forall k | i <= k < i + |run|
      ensures IsNumberChar(b[k])
    {
      AtIndex(b, i, run, k - i);
    }
  }

  /** The run of number characters at a position, which ends before something else. */
  lemma RunEnds(b: Text, i: nat, run: Text, rest: Text)
    requires EndsAt(b, i, run + rest) && NumberRun(run) && Stops(rest)
    ensures i < Size(b) && IsIntChar(b[i]) && NumberEnd(b, i) == i + |run|
    ensures b[i..i + |run|] == run && b[i..] == run + (rest + [0]) && Stops(rest + [0])
  {
    hide EndsAt, NumberEnd, IsNumberChar, IsIntChar;
    EndsHead(b, i, run + rest);
    EndsSplit(b, i, run, rest);
    EndsHead(b, i + |run|, rest);
    RunChars(b, i, run);
    NumberEndAt(b, i, i + |run|);
    EndsSlices(b, i, run, rest);
    ZeroStops(rest);
  }

  lemma ZeroStops(rest: Text)
    requires Stops(rest)
    ensures Stops(rest + [0])
  {
  }

  lemma EndsSlices(b: Text, i: nat, run: Text, rest: Text)
    requires EndsAt(b, i, run + rest)
    ensures b[i..i + |run|] == run && b[i..] == run + (rest + [0])
  {
    EndsSplit(b, i, run, rest);
    assert b[i..] == b[i..Size(b)] + [b[Size(b)]];
  }

  lemma DigitsEnd(s: Text, start: nat, digits: Text, stop: nat)
    requires start <= |s| && stop == start + |digits| <= |s| && IsDigits(digits) && s[start..stop] == digits
    requires stop < |s| ==> !IsDigit(s[stop])
    ensures DigitRun(s, start) == stop
  {
    forall k | start <= k < stop
      ensures IsDigit(s[k])
    {
      assert s[k] == s[start..stop][k - start];
    }
  }

  /** The integer conversion of a run with its sign, digits and tail, whatever follows. */
  lemma IntConverts(sign: Text, digits: Text, tail: Text, more: Text)
    requires IntRun(sign, digits, tail) && Stops(more)
    ensures StrToLL(sign + digits + tail + more) ==
              if digits == [] then IntScan(0, 0, false)
              else IntScan(Signed(sign, digits), |sign| + |digits|, !Fits64(Signed(sign, digits)))
  {
    hide DigitsValue, DigitRun, IsDigits;
    var s := sign + digits + tail + more;
    SignFirst(sign, digits, tail, more);
    var start, stop := |sign|, |sign| + |digits|;
    assert s[start..stop] == digits;
    if stop < |s| {
      assert s[stop] == (tail + more)[0];
    }
    DigitsEnd(s, start, digits, stop);
  }

  lemma SignFirst(sign: Text, digits: Text, tail: Text, more: Text)
    requires IntRun(sign, digits, tail)
    ensures var s := sign + digits + tail + more;
            && s != []
            && |sign| == (if s[0] == PLUS || s[0] == MINUS then 1 else 0) && (s[0] == MINUS <==> sign == [MINUS])
  {
    if sign == [] {
      assert (sign + digits + tail + more)[0] == digits[0];
    }
  }

  lemma IntFails(b: Text, i: nat, sign: Text, digits: Text, tail: Text, rest: Text, strtod: Strtod)
    requires IntRun(sign, digits, tail) && IntCode(sign, digits, tail) != JSON_OK && Stops(rest)
    requires EndsAt(b, i, sign + digits + tail + rest)
    ensures i < Size(b) && IsIntChar(b[i]) && PNumber(b, i, strtod) == Err(IntCode(sign, digits, tail))
  {
    hide EndsAt, StrToLL, Signed, Fits64;
    var run := sign + digits + tail;
    IntRunIsRun(sign, digits, tail);
    RunEnds(b, i, run, rest);
    assert run + (rest + [0]) == sign + digits + tail + (rest + [0]);
    IntConverts(sign, digits, tail, rest + [0]);
  }

  lemma IntRunIsRun(sign: Text, digits: Text, tail: Text)
    requires IntRun(sign, digits, tail)
    ensures NumberRun(sign + digits + tail) && !HasFloatChar(sign + digits + tail)
  {
    var run := sign + digits + tail;
    forall k | 0 <= k < |run|
      ensures IsIntChar(run[k])
    {
    }
  }

  lemma FloatFails(b: Text, i: nat, run: Text, rest: Text, strtod: Strtod)
    requires NumberRun(run) && HasFloatChar(run) && FloatCode(run, strtod) != JSON_OK && LocalAt(strtod, run)
    requires Stops(rest) && EndsAt(b, i, run + rest)
    ensures i < Size(b) && IsIntChar(b[i]) && PNumber(b, i, strtod) == Err(FloatCode(run, strtod))
  {
    hide EndsAt, HasFloatChar, NumberEnd, StrToLL;
    RunEnds(b, i, run, rest);
    assert Scan(strtod, run + (rest + [0])) == Scan(strtod, run);
  }

  lemma NumberFails(b: Text, i: nat, flaw: NumberFlaw, rest: Text, strtod: Strtod)
    requires NumberFlawOk(flaw, strtod) && Stops(rest) && EndsAt(b, i, NumberFlawText(flaw) + rest) && Local(strtod)
    ensures i < Size(b) && IsIntChar(b[i]) && PNumber(b, i, strtod) == Err(NumberFlawCode(flaw, strtod))
  {
    hide EndsAt, IntRun, IntCode, FloatCode, PNumber, LocalAt, HasFloatChar, NumberRun;
    match flaw
    case IntFlaw(sign, digits, tail) => IntFails(b, i, sign, digits, tail, rest, strtod);
    case FloatFlaw(run) =>
      assert LocalAt(strtod, run);
      FloatFails(b, i, run, rest, strtod);
  }

  lemma LiteralFails(b: Text, i: nat, lit: Text, rest: Text)
    requires IsLiteralText(lit) && EndsAt(b, i, rest) && rest != [] && LiteralCode(lit, rest, Size(b)) != JSON_OK
    requires Size(b) < SIZE_MODULUS
    ensures i < Size(b) && 0 < |lit| <= 5 && 0 !in lit
    ensures PLiteral(b, i, lit) == Err(LiteralCode(lit, rest, Size(b)))
  {
    hide Matches;
    EndsHead(b, i, rest);
    if Matches(b, i, lit) {
      MatchesInside(b, i, lit);
      MatchedText(b, i, lit);
      assert b[i..i + |lit|] == rest[..|lit|];
    }
    assert Size(b) >= |lit| ==> (Size(b) - |lit|) % SIZE_MODULUS == Size(b) - |lit|;
    assert Size(b) < |lit| ==> (Size(b) - |lit|) % SIZE_MODULUS == SIZE_MODULUS + Size(b) - |lit|;
  }

  // ---------------------------------------------------------------------
  // Flawed values are refused
  // ---------------------------------------------------------------------

  /** After white space, the list of children is refused with this code. */
  ghost predicate ListFails(b: Text, i: nat, isArray: bool, code: int, strtod: Strtod) {
    && IsBuffer(b) && i <= Size(b) < SIZE_MODULUS
    && var j := SkipSpace(b, i);
    if j == Size(b) then code == END_OF_BUFFER else PKids(b, j, isArray, strtod) == Err(code)
  }

  lemma BlankThen(b: Text, i: nat, before: Text, t: Text)
    requires EndsAt(b, i, before + t) && Blank(before) && (t != [] ==> !IsSpace(t[0]))
    ensures EndsAt(b, i + |before|, t) && SkipSpace(b, i) == i + |before|
  {
    hide At;
    EndsSplit(b, i, before, t);
    EndsHead(b, i + |before|, t);
    forall k | i <= k < i + |before|
      ensures IsSpace(b[k])
    {
      AtIndex(b, i, before, k - i);
    }
  }

  /** The list goes on behind an item and its comma. */
  lemma MoreFails(b: Text, i: nat, isArray: bool, item: Item, more: Text, code: int, strtod: Strtod)
    requires ItemOk(isArray, item, strtod) && At(b, i, ItemText(item) + ([COMMA] + more)) && Size(b) < SIZE_MODULUS
    requires ListFails(b, i + |ItemText(item)| + 1, isArray, code, strtod)
    ensures ListFails(b, i, isArray, code, strtod)
  {
    hide PChild, SkipSpace, PKids, ItemText, At, ItemOk, DocValue, NameValue, NameOk, DocOk;
    ItemParses(b, i, isArray, item, [COMMA] + more, strtod);
    PKidsUnfold(b, SkipSpace(b, i), isArray, strtod);
  }

  lemma {:induction false} ItemsFail(
      b: Text, i: nat, isArray: bool, items: seq<Item>, more: Text, code: int, strtod: Strtod)
    requires ItemsOk(isArray, items, strtod) && EndsAt(b, i, ItemsBefore(items) + more) && Size(b) < SIZE_MODULUS
    requires ListFails(b, i + |ItemsBefore(items)|, isArray, code, strtod)
    ensures ListFails(b, i, isArray, code, strtod)
    decreases |items|
  {
    hide ListFails, ItemText, ItemOk, At;
    if items != [] {
      var item, rest := items[0], ItemsBefore(items[1..]);
      assert ItemsBefore(items) + more == ItemText(item) + ([COMMA] + (rest + more));
      EndsSplit(b, i, ItemText(item), [COMMA] + (rest + more));
      EndsSplit(b, i + |ItemText(item)|, [COMMA], rest + more);
      ItemsFail(b, i + |ItemText(item)| + 1, isArray, items[1..], more, code, strtod);
      MoreFails(b, i, isArray, item, rest + more, code, strtod);
    }
  }

  /** A flawed text is refused with the code of its flaw. */
  lemma {:induction false} FlawFails(b: Text, i: nat, f: Flawed, strtod: Strtod)
    requires EndsAt(b, i, FlawedText(f)) && Size(b) < SIZE_MODULUS && Local(strtod)
    requires FlawedOk(f, strtod, Size(b))
    ensures PValue(b, i, strtod) == Err(FlawedCode(f, strtod, Size(b)))
    decreases f, 1
  {
    hide PString, PNumber, PContainer, SkipSpace, PLiteral, StringFlawText, NumberFlawText, At, EndsAt, Local,
         StringFlawOk, NumberFlawOk, LiteralCode, ItemsOk, GroupFlawOk, ItemsBefore, Blank, PString;
    EndsHead(b, i, FlawedText(f));
    FlawedHead(f, strtod, Size(b));
    StartsHere(b, i);
    match f
    case NoValue(rest) =>
    case InNumber(number, rest) => NumberFails(b, i, number, rest, strtod);
    case InLiteral(lit, rest) => LiteralFails(b, i, lit, rest);
    case InString(str) => StringFails(b, i, str);
    case InGroup(isArray, items, before, flaw) => GroupFails(b, i, isArray, items, before, flaw, strtod);
  }

  /** Nothing is skipped at the end or at something that is not white space. */
  lemma StartsHere(b: Text, i: nat)
    requires IsBuffer(b) && i <= Size(b) && (i < Size(b) ==> !IsSpace(b[i]))
    ensures SkipSpace(b, i) == i
  {
  }

  /** A flawed text starts with what its kind starts with. */
  lemma FlawedHead(f: Flawed, strtod: Strtod, size: nat)
    requires FlawedOk(f, strtod, size)
    ensures var t := FlawedText(f);
            && (t != [] ==> !IsSpace(t[0])) && (!f.NoValue? ==> t != [])
            && (f.InNumber? ==> IsIntChar(t[0])) && (f.InString? ==> t[0] == QUOTE)
            && (f.InGroup? ==> t[0] == OpenChar(f.isArray))
            && (f.InLiteral? ==> t[0] == f.lit[0])
            && (f.NoValue? && t != [] ==> !ValueHead(t[0]))
  {
    hide StringFlawText, StringFlawOk, LiteralCode, ItemsOk, GroupFlawOk, ItemsBefore, Blank, GroupFlawText, ValueHead;
    if f.InNumber? {
      NumberHead(f.number, strtod, f.rest);
    }
    if f.NoValue? {
      assert f.rest != [] ==> !IsSpace(f.rest[0]) && !ValueHead(f.rest[0]);
    }
  }

  lemma NumberHead(flaw: NumberFlaw, strtod: Strtod, rest: Text)
    requires NumberFlawOk(flaw, strtod)
    ensures var t := NumberFlawText(flaw) + rest; t != [] && IsIntChar(t[0])
  {
    hide IntCode, FloatCode;
    match flaw
    case IntFlaw(sign, digits, tail) =>
      assert sign == [] ==> (sign + digits + tail + rest)[0] == digits[0];
      assert sign != [] ==> (sign + digits + tail + rest)[0] == sign[0];
    case FloatFlaw(run) =>
      assert (run + rest)[0] == run[0];
  }

  lemma {:induction false} GroupFails(
      b: Text, i: nat, isArray: bool, items: seq<Item>, before: Text, flaw: GroupFlaw, strtod: Strtod)
    requires IsBuffer(b) && ItemsOk(isArray, items, strtod) && Blank(before)
    requires GroupFlawOk(isArray, flaw, strtod, Size(b))
    requires EndsAt(b, i, [OpenChar(isArray)] + (ItemsBefore(items) + (before + GroupFlawText(flaw))))
    requires Size(b) < SIZE_MODULUS && Local(strtod)
    ensures i < Size(b) && PContainer(b, i, isArray, strtod) == Err(GroupFlawCode(isArray, flaw, strtod, Size(b)))
    decreases flaw, 1
  {
    hide PKids, SkipSpace, ItemsOk, ItemsBefore, GroupFlawText, GroupFlawOk, Blank, At, Local;
    var t := before + GroupFlawText(flaw);
    EndsHead(b, i, [OpenChar(isArray)] + (ItemsBefore(items) + t));
    EndsSplit(b, i, [OpenChar(isArray)], ItemsBefore(items) + t);
    EndsSplit(b, i + 1, ItemsBefore(items), t);
    FlawInList(b, i + 1 + |ItemsBefore(items)|, isArray, before, flaw, strtod);
    ItemsFail(b, i + 1, isArray, items, t, GroupFlawCode(isArray, flaw, strtod, Size(b)), strtod);
  }

  /** The flaw itself, behind white space. */
  lemma {:induction false} FlawInList(
      b: Text, i: nat, isArray: bool, before: Text, flaw: GroupFlaw, strtod: Strtod)
    requires IsBuffer(b) && Blank(before) && GroupFlawOk(isArray, flaw, strtod, Size(b))
    requires EndsAt(b, i, before + GroupFlawText(flaw)) && Size(b) < SIZE_MODULUS && Local(strtod)
    ensures ListFails(b, i, isArray, GroupFlawCode(isArray, flaw, strtod, Size(b)), strtod)
    decreases flaw, 0
  {
    hide PKids, SkipSpace, GroupFlawOk, Blank, EndsAt, Local, PChild, PName, NameText, FlawedText, DocText,
         StringFlawText, QuoteText, FlawedCode, StringFlawCode;
    GroupFlawHead(isArray, flaw, strtod, Size(b));
    BlankThen(b, i, before, GroupFlawText(flaw));
    var j := i + |before|;
    EndsHead(b, j, GroupFlawText(flaw));
    match flaw
    case NoItem =>
    case NoDelimiter(name, doc, after, rest) =>
      PKidsUnfold(b, j, isArray, strtod);
      DelimiterFails(b, j, isArray, name, doc, after, rest, strtod);
    case InValue(name, value) =>
      PKidsUnfold(b, j, isArray, strtod);
      ValueFails(b, j, isArray, name, value, strtod);
    case _ =>
      PKidsUnfold(b, j, isArray, strtod);
      NameFails(b, j, flaw, strtod);
  }

  /** Nothing but the end of the buffer stands where the list could be closed. */
  lemma GroupFlawHead(isArray: bool, flaw: GroupFlaw, strtod: Strtod, size: nat)
    requires GroupFlawOk(isArray, flaw, strtod, size)
    ensures var t := GroupFlawText(flaw);
            && (t != [] ==> !IsSpace(t[0])) && (flaw == NoItem <==> t == [])
            && (t != [] ==> t[0] != EndChar(isArray))
            && (flaw.Unnamed? || flaw.InName? || flaw.NoColon? ==> !isArray)
  {
    hide StringFlawText, StringFlawOk, CharsText, CharsOk, FlawedOk, FlawedText, DocOk, DocText, Blank;
    match flaw
    case InValue(name, value) =>
      FlawedHead(value, strtod, size);
    case NoDelimiter(name, doc, after, rest) =>
      DocHead(doc, strtod);
    case _ =>
  }

  lemma NameFails(b: Text, j: nat, flaw: GroupFlaw, strtod: Strtod)
    requires IsBuffer(b) && GroupFlawOk(false, flaw, strtod, Size(b)) && EndsAt(b, j, GroupFlawText(flaw))
    requires (flaw.Unnamed? || flaw.InName? || flaw.NoColon?) && Size(b) < SIZE_MODULUS
    ensures j < Size(b) && PChild(b, j, false, strtod) == Err(GroupFlawCode(false, flaw, strtod, Size(b)))
  {
    hide SkipSpace, EndsAt, PString, QuoteText, StringFlawText, StringFlawOk, CharsOk, Blank;
    GroupFlawHead(false, flaw, strtod, Size(b));
    EndsHead(b, j, GroupFlawText(flaw));
    match flaw
    case Unnamed(rest) =>
    case InName(str) => StringFails(b, j, str);
    case NoColon(chars, gap, rest) => ColonFails(b, j, chars, gap, rest);
  }

  lemma ColonFails(b: Text, j: nat, chars: seq<Ch>, gap: Text, rest: Text)
    requires CharsOk(chars) && Blank(gap) && Other(rest, {COLON}) && EndsAt(b, j, QuoteText(chars) + (gap + rest))
    ensures j < Size(b) && b[j] == QUOTE
    ensures PName(b, j, false) == Err(MissingCode(rest, OBJECT_INVALID))
  {
    hide SkipSpace, PString, QuoteText, CharsOk, Blank, At;
    EndsSplit(b, j, QuoteText(chars), gap + rest);
    QuoteParses(b, j, chars);
    BlankThen(b, j + |QuoteText(chars)|, gap, rest);
    EndsHead(b, j + |QuoteText(chars)| + |gap|, rest);
  }

  lemma {:induction false} ValueFails(
      b: Text, j: nat, isArray: bool, name: Option<Name>, value: Flawed, strtod: Strtod)
    requires IsBuffer(b) && GroupFlawOk(isArray, InValue(name, value), strtod, Size(b))
    requires EndsAt(b, j, NameText(name) + FlawedText(value)) && Size(b) < SIZE_MODULUS && Local(strtod)
    ensures j < Size(b) && PChild(b, j, isArray, strtod) == Err(FlawedCode(value, strtod, Size(b)))
    decreases value, 2
  {
    hide SkipSpace, EndsAt, PName, PValue, FlawedText, NameText, Local, NameOk, FlawedOk, IsSpace;
    GroupFlawHead(isArray, InValue(name, value), strtod, Size(b));
    EndsHead(b, j, NameText(name) + FlawedText(value));
    EndsSplit(b, j, NameText(name), FlawedText(value));
    FlawedHead(value, strtod, Size(b));
    var q := j + |NameText(name)|;
    FlawFails(b, q, value, strtod);
    NameThen(b, j, isArray, name, FlawedText(value), strtod);
  }

  /** A name parses before whatever its value turns out to be. */
  lemma NameThen(b: Text, j: nat, isArray: bool, name: Option<Name>, t: Text, strtod: Strtod)
    requires NameOk(name, isArray) && EndsAt(b, j, NameText(name) + t) && (t != [] ==> !IsSpace(t[0]))
    requires NameText(name) + t != [] && !IsSpace((NameText(name) + t)[0]) && Size(b) < SIZE_MODULUS
    ensures j < Size(b)
    ensures var r := PName(b, j, isArray);
            && r.Ok? && r.value == NameValue(name)
            && PValue(b, r.next, strtod) == PValue(b, j + |NameText(name)|, strtod)
  {
    hide SkipSpace, At, PName, PValue, QuoteText, NameValue, Blank, CharsOk;
    EndsHead(b, j, NameText(name) + t);
    match name
    case None =>
      NoName(b, j);
      NoNameRead(b, j);
    case Some(l) => QuotedThen(b, j, l, t, strtod);
  }

  lemma QuotedThen(b: Text, j: nat, l: Name, t: Text, strtod: Strtod)
    requires CharsOk(l.chars) && Blank(l.before) && Blank(l.after) && EndsAt(b, j, NameText(Some(l)) + t)
    requires (t != [] ==> !IsSpace(t[0])) && Size(b) < SIZE_MODULUS
    ensures j < Size(b)
    ensures var r := PName(b, j, false);
            && r.Ok? && r.value == NameValue(Some(l))
            && PValue(b, r.next, strtod) == PValue(b, j + |NameText(Some(l))|, strtod)
  {
    hide SkipSpace, EndsAt, PName, PValue, QuoteText, NameValue, Blank, CharsOk, PString, IsSpace, CStr, CharsValue;
    var k := j + |QuoteText(l.chars)|;
    NamePieces(l, t);
    EndsSplit(b, j, QuoteText(l.chars), l.before + ([COLON] + (l.after + t)));
    QuoteParses(b, j, l.chars);
    ColonThen(b, k, l.before, l.after, t);
    var c := k + |l.before|;
    PNameSteps(b, j, CStr(CharsValue(l.chars)), k);
    NameOfChars(l);
    SameValue(b, c + 1, c + 1 + |l.after|, strtod);
  }

  /** A colon and what is blank around it. */
  lemma ColonThen(b: Text, k: nat, before: Text, after: Text, t: Text)
    requires Blank(before) && Blank(after) && EndsAt(b, k, before + ([COLON] + (after + t)))
    requires t != [] ==> !IsSpace(t[0])
    ensures var c := k + |before|;
            && SkipSpace(b, k) == c < Size(b) && b[c] == COLON
            && c + 1 + |after| <= Size(b) && SkipSpace(b, c + 1) == c + 1 + |after|
  {
    hide SkipSpace, EndsAt, Blank;
    BlankThen(b, k, before, [COLON] + (after + t));
    var c := k + |before|;
    EndsHead(b, c, [COLON] + (after + t));
    EndsSplit(b, c, [COLON], after + t);
    BlankThen(b, c + 1, after, t);
    EndsHead(b, c + 1 + |after|, t);
  }

  lemma NamePieces(l: Name, t: Text)
    ensures NameText(Some(l)) + t == QuoteText(l.chars) + (l.before + ([COLON] + (l.after + t)))
    ensures |NameText(Some(l))| == |QuoteText(l.chars)| + |l.before| + 1 + |l.after|
  {
    hide QuoteText;
  }

  lemma NameOfChars(l: Name)
    requires CharsOk(l.chars)
    ensures NameValue(Some(l)) == Some(CStr(CharsValue(l.chars)))
  {
  }

  lemma SameValue(b: Text, i: nat, j: nat, strtod: Strtod)
    requires IsBuffer(b) && i <= j <= Size(b) < SIZE_MODULUS && SkipSpace(b, i) == j
    ensures PValue(b, i, strtod) == PValue(b, j, strtod)
  {
    hide PString, PNumber, PContainer, PLiteral;
    StartsHere(b, j);
  }

  lemma DelimiterFails(
      b: Text, j: nat, isArray: bool, name: Option<Name>, doc: Doc, after: Text, rest: Text, strtod: Strtod)
    requires IsBuffer(b) && GroupFlawOk(isArray, NoDelimiter(name, doc, after, rest), strtod, Size(b))
    requires EndsAt(b, j, NameText(name) + (DocText(doc) + (after + rest))) && Size(b) < SIZE_MODULUS
    ensures j < Size(b)
    ensures var r := PChild(b, j, isArray, strtod);
            if rest == [] then r == Err(END_OF_BUFFER)
            else r.Ok? && b[r.next] != COMMA && b[r.next] != EndChar(isArray)
  {
    hide SkipSpace, EndsAt, PName, PValue, DocText, NameText, NameOk, DocOk, IsSpace, DocValue, NameValue, Blank, Stops;
    var t := DocText(doc) + (after + rest);
    GroupFlawHead(isArray, NoDelimiter(name, doc, after, rest), strtod, Size(b));
    DocHead(doc, strtod);
    EndsHead(b, j, NameText(name) + t);
    NameThen(b, j, isArray, name, t, strtod);
    var q := j + |NameText(name)|;
    EndsSplit(b, j, NameText(name), t);
    EndsSplit(b, q, DocText(doc), after + rest);
    var r := q + |DocText(doc)|;
    EndsHead(b, r, after + rest);
    AfterDoc(b, r, after + rest, doc);
    DocParses(b, q, doc, strtod);
    BlankThen(b, r, after, rest);
    EndsHead(b, r + |after|, rest);
  }

  lemma AfterDoc(b: Text, r: nat, t: Text, doc: Doc)
    requires EndsAt(b, r, t) && (doc.Num? ==> Stops(t)) && (doc.Lit? ==> t != [])
    ensures IsBuffer(b) && r <= Size(b) && Delimited(b, r, doc) && (doc.Num? ==> !IsNumberChar(b[r]))
  {
    EndsHead(b, r, t);
  }

  // ---------------------------------------------------------------------
  // What is refused has a flaw: strings
  // ---------------------------------------------------------------------

  /** All of the buffer from a position on. */
  function Tail(b: Text, i: nat): Text
    requires IsBuffer(b) && i <= Size(b)
  {
    b[i..Size(b)]
  }

  lemma TailEnds(b: Text, i: nat)
    requires IsBuffer(b) && i <= Size(b)
    ensures EndsAt(b, i, Tail(b, i))
  {
  }

  lemma TailSplit(b: Text, i: nat, k: nat)
    requires IsBuffer(b) && i <= k <= Size(b)
    ensures Tail(b, i) == b[i..k] + Tail(b, k)
    ensures k < Size(b) ==> Tail(b, k) == [b[k]] + Tail(b, k + 1)
  {
  }

  lemma BodyMore(c: Text, body: Text)
    requires Body(body)
    requires (|c| == 1 && c[0] != BACKSLASH && c[0] != QUOTE && c[0] != LF) || (|c| == 2 && c[0] == BACKSLASH)
    ensures Body(c + body)
  {
    assert (c + body)[|c|..] == body;
  }

  /** A scan that fails has met a line feed or the end. */
  lemma {:induction false} ReadScan(b: Text, p: nat, escaped: bool) returns (flaw: StringFlaw)
    requires IsBuffer(b) && p <= Size(b) && FindQuote(b, p, escaped).Err?
    ensures StringFlawOk(flaw) && !flaw.BadEscape?
    ensures StringFlawText(flaw) == Tail(b, p) && FindQuote(b, p, escaped) == Err(StringFlawCode(flaw))
    decreases Size(b) - p
  {
    hide Body;
    TailSplit(b, p, p);
    NoBody();
    if b[p] == LF {
      flaw := LineFeed([], Tail(b, p + 1));
    } else if b[p] == BACKSLASH {
      if p + 1 >= Size(b) {
        flaw := NoQuote([], [BACKSLASH]);
      } else {
        var more := ReadScan(b, p + 2, true);
        TailSplit(b, p, p + 2);
        BodyBefore(b[p..p + 2], more);
        flaw := Before(b[p..p + 2], more);
      }
    } else if p >= Size(b) {
      flaw := NoQuote([], []);
    } else {
      var more := ReadScan(b, p + 1, escaped);
      TailSplit(b, p, p + 1);
      BodyBefore(b[p..p + 1], more);
      flaw := Before(b[p..p + 1], more);
    }
  }

  lemma NoBody()
    ensures Body([])
  {
  }

  function Before(c: Text, flaw: StringFlaw): StringFlaw {
    match flaw
    case LineFeed(body, rest) => LineFeed(c + body, rest)
    case NoQuote(body, last) => NoQuote(c + body, last)
    case BadEscape(_, _, _) => flaw
  }

  lemma BodyBefore(c: Text, flaw: StringFlaw)
    requires StringFlawOk(flaw) && !flaw.BadEscape?
    requires (|c| == 1 && c[0] != BACKSLASH && c[0] != QUOTE && c[0] != LF) || (|c| == 2 && c[0] == BACKSLASH)
    ensures StringFlawOk(Before(c, flaw)) && StringFlawCode(Before(c, flaw)) == StringFlawCode(flaw)
    ensures StringFlawText(Before(c, flaw)) == c + StringFlawText(flaw)
  {
    hide Body;
    match flaw
    case LineFeed(body, rest) =>
      BodyMore(c, body);
      assert c + body + ([LF] + rest) == c + (body + ([LF] + rest));
    case NoQuote(body, last) =>
      BodyMore(c, body);
      assert c + body + last == c + (body + last);
  }

  lemma {:induction false} ScannedBody(b: Text, p: nat, to: nat, escaped: bool)
    requires IsBuffer(b) && p <= Size(b) && FindQuote(b, p, escaped).Ok? && FindQuote(b, p, escaped).next == to
    ensures p <= to && Body(b[p..to])
    decreases Size(b) - p
  {
    hide Body;
    NoBody();
    if b[p] == QUOTE {
      assert b[p..to] == [];
    } else {
      var n := if b[p] == BACKSLASH then 2 else 1;
      ScannedBody(b, p + n, to, escaped || b[p] == BACKSLASH);
      BodyMore(b[p..p + n], b[p + n..to]);
      assert b[p..to] == b[p..p + n] + b[p + n..to];
    }
  }

  /** `chars` and then a bad escape lie between `p` and the end of the string. */
  ghost predicate EscapeAt(b: Text, p: nat, to: nat, chars: seq<Ch>, bad: Text)
    requires p <= to <= |b| && Paired(b, p, to)
  {
    && CharsOk(chars) && bad != [] && CharsText(chars) + ([BACKSLASH] + bad) == b[p..to]
    && EscapeCode(bad) != JSON_OK && Unescape(b, p, to) == Invalid(EscapeCode(bad))
  }

  /** A decoding that fails has met a bad escape. */
  lemma {:induction false} ReadEscape(b: Text, p: nat, to: nat, escaped: bool) returns (chars: seq<Ch>, bad: Text)
    requires IsBuffer(b) && p <= to <= Size(b) && Paired(b, p, to) && Unescape(b, p, to).Invalid?
    requires FindQuote(b, p, escaped).Ok? && FindQuote(b, p, escaped).next == to
    ensures EscapeAt(b, p, to, chars, bad)
    decreases |b| - p
  {
    hide UnicodeAt, Utf8, SimpleEscape, EscapeAt;
    if b[p] != BACKSLASH {
      chars, bad := ReadEscape(b, p + 1, to, escaped);
      RawOk(b[p]);
      CharBefore(b, p, p + 1, to, Raw(b[p]), chars, bad);
      chars := [Raw(b[p])] + chars;
    } else if b[p + 1] == 117 && UnicodeAt(b, p + 2, to) >= 0 {
      var hex := b[p + 2..p + 6];
      ReadUnicode(b, p, to, escaped);
      chars, bad := ReadEscape(b, p + 6, to, true);
      UniOk(hex);
      assert b[p..p + 6] == [BACKSLASH, 117] + hex;
      CharBefore(b, p, p + 6, to, Uni(hex), chars, bad);
      chars := [Uni(hex)] + chars;
    } else if b[p + 1] != 117 && SimpleEscape(b[p + 1]).Some? {
      chars, bad := ReadEscape(b, p + 2, to, true);
      EscOk(b[p + 1]);
      assert b[p..p + 2] == [BACKSLASH, b[p + 1]];
      CharBefore(b, p, p + 2, to, Esc(b[p + 1]), chars, bad);
      chars := [Esc(b[p + 1])] + chars;
    } else {
      chars, bad := [], b[p + 1..to];
      BadHere(b, p, to);
    }
  }

  lemma CharBefore(b: Text, p: nat, q: nat, to: nat, ch: Ch, chars: seq<Ch>, bad: Text)
    requires p <= q <= to <= |b| && ChOk(ch) && ChText(ch) == b[p..q] && Paired(b, p, to) && Paired(b, q, to)
    requires EscapeAt(b, q, to, chars, bad) && Unescape(b, p, to) == Unescape(b, q, to)
    ensures EscapeAt(b, p, to, [ch] + chars, bad)
  {
    hide ChOk, ChText, Unescape, Paired, CharsText, CharsOk, EscapeCode;
    FirstText(ch, chars);
    assert b[p..to] == b[p..q] + b[q..to];
    assert ChText(ch) + CharsText(chars) + ([BACKSLASH] + bad) == ChText(ch) + (CharsText(chars) + ([BACKSLASH] + bad));
  }

  lemma FirstText(ch: Ch, chars: seq<Ch>)
    requires ChOk(ch) && CharsOk(chars)
    ensures CharsOk([ch] + chars) && CharsText([ch] + chars) == ChText(ch) + CharsText(chars)
  {
    hide ChOk, ChText;
    assert ([ch] + chars)[1..] == chars;
  }

  lemma BadHere(b: Text, p: nat, to: nat)
    requires IsBuffer(b) && p + 2 <= to <= Size(b) && b[p] == BACKSLASH && Paired(b, p, to)
    requires if b[p + 1] == 117 then UnicodeAt(b, p + 2, to) < 0 else SimpleEscape(b[p + 1]) == None
    ensures EscapeAt(b, p, to, [], b[p + 1..to])
  {
    hide SimpleEscape, GoodUnicode, IsEscapeLetter, UnicodeAt;
    LetterExact(b[p + 1]);
    NoChars();
    var bad := b[p + 1..to];
    assert [] + ([BACKSLASH] + bad) == b[p..to];
    if b[p + 1] == 117 {
      UnicodeBad(b, p + 1, bad, to);
    }
  }

  lemma UnicodeBad(b: Text, p: nat, bad: Text, to: nat)
    requires IsBuffer(b) && p < to <= Size(b) && bad == b[p..to] && bad[0] == 117
    ensures UnicodeAt(b, p + 1, to) < 0 ==> EscapeCode(bad) == UnicodeAt(b, p + 1, to)
  {
    hide GoodUnicode;
    if |bad| >= 5 {
      var hex := bad[1..5];
      assert forall k :: 0 <= k < 4 ==> hex[k] == bad[k + 1] == b[p + 1 + k];
      assert hex == b[p + 1..p + 1 + |hex|];
      UnicodeHere(b, p + 1, to, hex);
      UnicodeExact(hex);
    }
  }

  /** A string that is refused has a flaw with its code. */
  lemma ReadStringFlaw(b: Text, i: nat) returns (flaw: StringFlaw)
    requires IsBuffer(b) && i < Size(b) && b[i] == QUOTE && PString(b, i).Err?
    ensures StringFlawOk(flaw) && EndsAt(b, i, [QUOTE] + StringFlawText(flaw))
    ensures PString(b, i) == Err(StringFlawCode(flaw))
  {
    hide FindQuote, Unescape, Paired, CharsText, CharsOk, EscapeCode, Body;
    var q := FindQuote(b, i + 1, false);
    if q.Err? {
      flaw := ReadScan(b, i + 1, false);
    } else {
      var to := q.next;
      var chars, bad := ReadEscape(b, i + 1, to, false);
      ScannedBody(b, i + 1, to, false);
      TailSplit(b, i + 1, to);
      flaw := BadEscape(chars, bad, Tail(b, to + 1));
    }
    TailSplit(b, i, i);
    TailEnds(b, i);
  }

  // ---------------------------------------------------------------------
  // Numbers and literals
  // ---------------------------------------------------------------------

  /** A run without a point or an exponent: its sign, its digits and what follows them. */
  lemma SplitRun(run: Text) returns (sign: Text, digits: Text, tail: Text)
    requires NumberRun(run) && !HasFloatChar(run)
    ensures run == sign + digits + tail && IntRun(sign, digits, tail)
  {
    hide DigitRun, IntRun, NumberRun, HasFloatChar;
    IntCharsOnly(run);
    var start := if run[0] == PLUS || run[0] == MINUS then 1 else 0;
    var stop := DigitRun(run, start);
    sign, digits, tail := run[..start], run[start..stop], run[stop..];
    assert run == sign + digits + tail;
    SplitIsRun(run, start, stop);
  }

  lemma IntCharsOnly(run: Text)
    requires NumberRun(run) && !HasFloatChar(run)
    ensures run != [] && forall k :: 0 <= k < |run| ==> IsIntChar(run[k])
  {
    forall k | 0 <= k < |run|
      ensures IsIntChar(run[k])
    {
      assert IsNumberChar(run[k]) && !IsFloatChar(run[k]);
    }
  }

  lemma SplitIsRun(run: Text, start: nat, stop: nat)
    requires run != [] && (forall k :: 0 <= k < |run| ==> IsIntChar(run[k]))
    requires start == if run[0] == PLUS || run[0] == MINUS then 1 else 0
    requires stop == DigitRun(run, start)
    ensures IntRun(run[..start], run[start..stop], run[stop..])
  {
    hide DigitRun;
    var sign, digits, tail := run[..start], run[start..stop], run[stop..];
    assert forall k :: 0 <= k < |tail| ==> tail[k] == run[stop + k];
    assert forall k :: 0 <= k < |digits| ==> digits[k] == run[start + k];
    assert sign + digits + tail == run;
    if sign == [] {
      assert IsDigit(run[0]);
    }
  }

  lemma ReadRun(b: Text, i: nat) returns (run: Text, rest: Text)
    requires IsBuffer(b) && i < Size(b) && IsIntChar(b[i])
    ensures NumberRun(run) && Stops(rest) && EndsAt(b, i, run + rest)
    ensures NumberEnd(b, i) == i + |run| && run == b[i..i + |run|] && b[i..] == run + (rest + [0])
  {
    var j := NumberEnd(b, i);
    run, rest := b[i..j], Tail(b, j);
    TailSplit(b, i, j);
    TailEnds(b, i);
    assert j > i;
    forall k | 0 <= k < |run|
      ensures IsNumberChar(run[k])
    {
      assert run[k] == b[i + k];
    }
    assert b[i..] == b[i..Size(b)] + [b[Size(b)]];
  }

  lemma ReadNumberFlaw(b: Text, i: nat, strtod: Strtod) returns (flaw: NumberFlaw, rest: Text)
    requires IsBuffer(b) && i < Size(b) && IsIntChar(b[i]) && Local(strtod) && PNumber(b, i, strtod).Err?
    ensures NumberFlawOk(flaw, strtod) && Stops(rest) && EndsAt(b, i, NumberFlawText(flaw) + rest)
    ensures PNumber(b, i, strtod) == Err(NumberFlawCode(flaw, strtod))
  {
    hide NumberRun, HasFloatChar, EndsAt, StrToLL, IntRun, Signed, Fits64, NumberEnd;
    var run;
    run, rest := ReadRun(b, i);
    ZeroStops(rest);
    if HasFloatChar(run) {
      flaw := FloatFlaw(run);
      assert LocalAt(strtod, run);
      assert Scan(strtod, run + (rest + [0])) == Scan(strtod, run);
    } else {
      var sign, digits, tail := SplitRun(run);
      IntConverts(sign, digits, tail, rest + [0]);
      assert run + (rest + [0]) == sign + digits + tail + (rest + [0]);
      IntDigits(sign, digits, tail);
      flaw := IntFlaw(sign, digits, tail);
    }
  }

  lemma IntDigits(sign: Text, digits: Text, tail: Text)
    requires IntRun(sign, digits, tail)
    ensures IsDigits(digits) && |sign + digits + tail| == |sign| + |digits| + |tail|
    ensures |sign + digits + tail| > 0
  {
  }

  lemma ReadLiteralFlaw(b: Text, i: nat, lit: Text) returns (rest: Text)
    requires IsBuffer(b) && i < Size(b) < SIZE_MODULUS && IsLiteralText(lit) && b[i] == lit[0]
    requires 0 < |lit| <= 5 && 0 !in lit && PLiteral(b, i, lit).Err?
    ensures rest == Tail(b, i) && rest != [] && rest[0] == lit[0]
    ensures LiteralCode(lit, rest, Size(b)) != JSON_OK && PLiteral(b, i, lit) == Err(LiteralCode(lit, rest, Size(b)))
  {
    hide PLiteral;
    rest := Tail(b, i);
    TailEnds(b, i);
    if LiteralCode(lit, rest, Size(b)) == JSON_OK {
      assert rest == rest[..|lit|] + rest[|lit|..];
      AtSplit(b, i, lit, rest[|lit|..]);
      LiteralParses(b, i, lit);
    } else {
      LiteralFails(b, i, lit, rest);
    }
  }

  // ---------------------------------------------------------------------
  // Values
  // ---------------------------------------------------------------------

  /** `f` is the flawed text at `j`, with this code. */
  ghost predicate FlawAt(b: Text, j: nat, f: Flawed, code: int, strtod: Strtod) {
    && EndsAt(b, j, FlawedText(f)) && FlawedOk(f, strtod, Size(b)) && FlawedCode(f, strtod, Size(b)) == code
  }

  ghost predicate GroupFlawAt(b: Text, j: nat, isArray: bool, flaw: GroupFlaw, code: int, strtod: Strtod) {
    && EndsAt(b, j, GroupFlawText(flaw)) && GroupFlawOk(isArray, flaw, strtod, Size(b))
    && GroupFlawCode(isArray, flaw, strtod, Size(b)) == code
  }

  /** Items with their commas and white space lie between `p` and the flaw. */
  ghost predicate ListFlawAt(
      b: Text, p: nat, isArray: bool, items: seq<Item>, before: Text, flaw: GroupFlaw, code: int, strtod: Strtod) {
    && IsBuffer(b) && ItemsOk(isArray, items, strtod) && Blank(before)
    && EndsAt(b, p, ItemsBefore(items) + (before + GroupFlawText(flaw)))
    && GroupFlawOk(isArray, flaw, strtod, Size(b)) && GroupFlawCode(isArray, flaw, strtod, Size(b)) == code
  }

  /** What is refused as a value is a flawed text. */
  lemma {:induction false} ReadFlaw(b: Text, i: nat, strtod: Strtod) returns (f: Flawed)
    requires IsBuffer(b) && i <= Size(b) < SIZE_MODULUS && Local(strtod) && PValue(b, i, strtod).Err?
    ensures FlawAt(b, SkipSpace(b, i), f, PValue(b, i, strtod).code, strtod)
    decreases Size(b) - i, 2
  {
    hide PString, PNumber, PContainer, SkipSpace, PLiteral, EndsAt, Local, StringFlawOk, StringFlawText, NumberFlawOk,
         NumberFlawText, LiteralCode, ValueHead, StringFlawCode, NumberFlawCode, GroupFlawOk, ItemsOk, ItemsBefore;
    var j := SkipSpace(b, i);
    TailEnds(b, j);
    if j == Size(b) {
      f := NoValue([]);
      assert Tail(b, j) == [];
    } else {
      TailSplit(b, j, j);
      HeadCases(b[j]);
      if b[j] == OPEN_OBJ || b[j] == OPEN_ARR {
        f := ReadGroupFlaw(b, j, b[j] == OPEN_ARR, strtod);
      } else if b[j] == QUOTE {
        var str := ReadStringFlaw(b, j);
        f := InString(str);
      } else if b[j] == TRUE_TEXT[0] || b[j] == FALSE_TEXT[0] || b[j] == NULL_TEXT[0] {
        f := ReadLiteralValue(b, j);
      } else if IsIntChar(b[j]) {
        var number, rest := ReadNumberFlaw(b, j, strtod);
        f := InNumber(number, rest);
      } else {
        f := NoValue(Tail(b, j));
      }
    }
  }

  lemma HeadCases(c: Byte)
    ensures ValueHead(c) <==> IsIntChar(c) || c == QUOTE || c == OPEN_OBJ || c == OPEN_ARR
                              || c == TRUE_TEXT[0] || c == FALSE_TEXT[0] || c == NULL_TEXT[0]
    ensures IsIntChar(c) ==> c != QUOTE && c != OPEN_OBJ && c != OPEN_ARR
    ensures c == TRUE_TEXT[0] || c == FALSE_TEXT[0] || c == NULL_TEXT[0] ==>
              c != QUOTE && c != OPEN_OBJ && c != OPEN_ARR && !IsIntChar(c)
  {
  }

  function LiteralOf(c: Byte): (lit: Text)
    ensures IsLiteralText(lit) && 0 < |lit| <= 5 && 0 !in lit
    ensures c == TRUE_TEXT[0] || c == FALSE_TEXT[0] || c == NULL_TEXT[0] ==> c == lit[0]
  {
    if c == TRUE_TEXT[0] then TRUE_TEXT else if c == FALSE_TEXT[0] then FALSE_TEXT else NULL_TEXT
  }

  lemma ReadLiteralValue(b: Text, j: nat) returns (f: Flawed)
    requires IsBuffer(b) && j < Size(b) < SIZE_MODULUS
    requires b[j] == TRUE_TEXT[0] || b[j] == FALSE_TEXT[0] || b[j] == NULL_TEXT[0]
    requires PLiteral(b, j, LiteralOf(b[j])).Err?
    ensures f == InLiteral(LiteralOf(b[j]), Tail(b, j)) && f.rest != [] && f.rest[0] == f.lit[0]
    ensures LiteralCode(f.lit, f.rest, Size(b)) != JSON_OK
    ensures PLiteral(b, j, f.lit) == Err(LiteralCode(f.lit, f.rest, Size(b)))
  {
    hide PLiteral, LiteralCode;
    var rest := ReadLiteralFlaw(b, j, LiteralOf(b[j]));
    f := InLiteral(LiteralOf(b[j]), rest);
  }

  lemma {:induction false} ReadGroupFlaw(b: Text, i: nat, isArray: bool, strtod: Strtod) returns (f: Flawed)
    requires IsBuffer(b) && i < Size(b) < SIZE_MODULUS && Local(strtod) && b[i] == OpenChar(isArray)
    requires PContainer(b, i, isArray, strtod).Err?
    ensures FlawAt(b, i, f, PContainer(b, i, isArray, strtod).code, strtod) && f.InGroup?
    decreases Size(b) - i, 1
  {
    hide PKids, SkipSpace, EndsAt, Local, GroupFlawOk, ItemsOk, ItemsBefore, Blank, GroupFlawText, GroupFlawCode;
    var code := PContainer(b, i, isArray, strtod).code;
    var items, before, flaw := ReadListFlaw(b, i + 1, isArray, code, strtod);
    f := InGroup(isArray, items, before, flaw);
    EndsBefore(b, i, ItemsBefore(items) + (before + GroupFlawText(flaw)));
  }

  lemma EndsBefore(b: Text, i: nat, t: Text)
    requires IsBuffer(b) && i < Size(b) && EndsAt(b, i + 1, t)
    ensures EndsAt(b, i, [b[i]] + t)
  {
    assert b[i..Size(b)] == [b[i]] + b[i + 1..Size(b)];
  }

  lemma EndsFrom(b: Text, i: nat, k: nat, t: Text)
    requires IsBuffer(b) && i <= k <= Size(b) && EndsAt(b, k, t)
    ensures EndsAt(b, i, b[i..k] + t)
  {
    assert b[i..Size(b)] == b[i..k] + b[k..Size(b)];
  }

  /** A list of children that is refused. */
  lemma {:induction false} ReadListFlaw(b: Text, p: nat, isArray: bool, code: int, strtod: Strtod)
    returns (items: seq<Item>, before: Text, flaw: GroupFlaw)
    requires IsBuffer(b) && p <= Size(b) < SIZE_MODULUS && Local(strtod) && ListFails(b, p, isArray, code, strtod)
    ensures ListFlawAt(b, p, isArray, items, before, flaw, code, strtod)
    decreases Size(b) - SkipSpace(b, p), 5
  {
    hide PChild, SkipSpace, PKids, Local, ListFlawAt, GroupFlawAt, AddKids, EndChar, ItemOk, Blank, DocOk, NameOk,
         DocValue, NameValue, ItemText, PName, PValue;
    var j := SkipSpace(b, p);
    SkippedIsBlank(b, p);
    items, before := [], b[p..j];
    if j == Size(b) {
      flaw := NoItem;
      NoItemAt(b, p, isArray, strtod);
    } else {
      PKidsUnfold(b, j, isArray, strtod);
      var kid := PChild(b, j, isArray, strtod);
      if kid.Err? {
        flaw := ReadChildFlaw(b, j, isArray, strtod);
        FirstFlawAt(b, p, j, isArray, flaw, code, strtod);
      } else if b[kid.next] != COMMA {
        ChildParts(b, j, isArray, strtod);
        flaw := ReadDelimiterFlaw(b, j, isArray, strtod);
        FirstFlawAt(b, p, j, isArray, flaw, code, strtod);
      } else {
        var k := kid.next;
        var item := ReadItem(b, p, isArray, strtod);
        RestFails(b, j, isArray, code, strtod);
        items, before, flaw := ReadListFlaw(b, k + 1, isArray, code, strtod);
        MoreFlawAt(b, p, k, isArray, item, items, before, flaw, code, strtod);
        items := [item] + items;
      }
    }
  }

  lemma ChildParts(b: Text, j: nat, isArray: bool, strtod: Strtod)
    requires IsBuffer(b) && j < Size(b) < SIZE_MODULUS && PChild(b, j, isArray, strtod).Ok?
    ensures PName(b, j, isArray).Ok? && PValue(b, PName(b, j, isArray).next, strtod).Ok?
    ensures SkipSpace(b, PValue(b, PName(b, j, isArray).next, strtod).next) == PChild(b, j, isArray, strtod).next
  {
    hide PName, PValue, SkipSpace;
  }

  /** Behind a comma it is the rest of the list that fails. */
  lemma RestFails(b: Text, j: nat, isArray: bool, code: int, strtod: Strtod)
    requires IsBuffer(b) && j < Size(b) < SIZE_MODULUS && b[j] != EndChar(isArray)
    requires PKids(b, j, isArray, strtod) == Err(code)
    requires PChild(b, j, isArray, strtod).Ok? && b[PChild(b, j, isArray, strtod).next] == COMMA
    ensures ListFails(b, PChild(b, j, isArray, strtod).next + 1, isArray, code, strtod)
  {
    hide PChild, SkipSpace, PKids, AddKids;
    PKidsUnfold(b, j, isArray, strtod);
    var kid := PChild(b, j, isArray, strtod);
    if SkipSpace(b, kid.next + 1) < Size(b) {
      AddKidsErr([kid.value], PKids(b, SkipSpace(b, kid.next + 1), isArray, strtod));
    }
  }

  lemma AddKidsErr(kids: seq<Node<Text>>, r: Parsed<seq<Node<Text>>>)
    ensures AddKids(kids, r).Err? <==> r.Err?
    ensures r.Err? ==> AddKids(kids, r).code == r.code
  {
  }

  lemma NoItemAt(b: Text, p: nat, isArray: bool, strtod: Strtod)
    requires IsBuffer(b) && p <= Size(b) && Blank(b[p..Size(b)])
    ensures ListFlawAt(b, p, isArray, [], b[p..Size(b)], NoItem, END_OF_BUFFER, strtod)
  {
    hide Blank;
    TailEnds(b, p);
    assert ItemsBefore([]) + (b[p..Size(b)] + []) == Tail(b, p);
  }

  lemma FirstFlawAt(b: Text, p: nat, j: nat, isArray: bool, flaw: GroupFlaw, code: int, strtod: Strtod)
    requires IsBuffer(b) && p <= j <= Size(b) && Blank(b[p..j]) && GroupFlawAt(b, j, isArray, flaw, code, strtod)
    ensures ListFlawAt(b, p, isArray, [], b[p..j], flaw, code, strtod)
  {
    hide Blank, EndsAt, GroupFlawOk, GroupFlawText;
    EndsFrom(b, p, j, GroupFlawText(flaw));
    assert ItemsBefore([]) + (b[p..j] + GroupFlawText(flaw)) == b[p..j] + GroupFlawText(flaw);
  }

  lemma MoreFlawAt(
      b: Text, p: nat, k: nat, isArray: bool, item: Item, items: seq<Item>, before: Text, flaw: GroupFlaw, code: int,
      strtod: Strtod)
    requires IsBuffer(b) && p <= k < Size(b) && b[k] == COMMA && b[p..k] == ItemText(item)
    requires ItemOk(isArray, item, strtod) && ListFlawAt(b, k + 1, isArray, items, before, flaw, code, strtod)
    ensures ListFlawAt(b, p, isArray, [item] + items, before, flaw, code, strtod)
  {
    hide Blank, EndsAt, GroupFlawOk, GroupFlawText, ItemText, ItemOk, ItemsOk;
    var t := before + GroupFlawText(flaw);
    EndsBefore(b, k, ItemsBefore(items) + t);
    EndsFrom(b, p, k, [COMMA] + (ItemsBefore(items) + t));
    assert ([item] + items)[1..] == items;
    assert ItemText(item) + ([COMMA] + ItemsBefore(items)) + t == ItemText(item) + ([COMMA] + (ItemsBefore(items) + t));
    ItemsFirst(isArray, item, items, strtod);
  }

  lemma ItemsFirst(isArray: bool, item: Item, items: seq<Item>, strtod: Strtod)
    requires ItemOk(isArray, item, strtod) && ItemsOk(isArray, items, strtod)
    ensures ItemsOk(isArray, [item] + items, strtod)
  {
    hide ItemOk;
    assert ([item] + items)[0] == item && ([item] + items)[1..] == items;
  }

  /** A child that is refused. */
  lemma {:induction false} ReadChildFlaw(b: Text, j: nat, isArray: bool, strtod: Strtod) returns (flaw: GroupFlaw)
    requires IsBuffer(b) && j < Size(b) < SIZE_MODULUS && Local(strtod) && !IsSpace(b[j]) && b[j] != EndChar(isArray)
    requires PChild(b, j, isArray, strtod).Err?
    ensures GroupFlawAt(b, j, isArray, flaw, PChild(b, j, isArray, strtod).code, strtod)
    decreases Size(b) - j, 3
  {
    hide PName, PValue, SkipSpace, Local, GroupFlawAt, FlawAt, IsSpace, EndChar;
    var nm := PName(b, j, isArray);
    if nm.Err? {
      flaw := ReadNameFlaw(b, j, isArray, strtod);
    } else {
      var value := PValue(b, nm.next, strtod);
      if value.Err? {
        var f := ReadFlaw(b, nm.next, strtod);
        flaw := ValueFlawAt(b, j, isArray, f, value.code, strtod);
      } else {
        flaw := ReadDelimiterFlaw(b, j, isArray, strtod);
      }
    }
  }

  lemma ReadNameFlaw(b: Text, j: nat, isArray: bool, strtod: Strtod) returns (flaw: GroupFlaw)
    requires IsBuffer(b) && j < Size(b) && !IsSpace(b[j]) && b[j] != EndChar(isArray) && PName(b, j, isArray).Err?
    ensures GroupFlawAt(b, j, isArray, flaw, PName(b, j, isArray).code, strtod)
  {
    hide SkipSpace, PString, IsSpace, StringFlawOk, StringFlawText, QuoteText, CharsOk, Blank, StringFlawCode, CStr,
         CharsValue;
    TailSplit(b, j, j);
    TailEnds(b, j);
    if b[j] != QUOTE {
      flaw := Unnamed(Tail(b, j));
    } else if PString(b, j).Err? {
      var str := ReadStringFlaw(b, j);
      flaw := InName(str);
    } else {
      var chars := ReadString(b, j);
      var n := PString(b, j).next;
      var k := SkipSpace(b, n);
      SkippedIsBlank(b, n);
      TailSplit(b, j, n);
      TailSplit(b, n, k);
      flaw := NoColon(chars, b[n..k], Tail(b, k));
    }
  }

  lemma ValueFlawAt(b: Text, j: nat, isArray: bool, f: Flawed, code: int, strtod: Strtod) returns (flaw: GroupFlaw)
    requires IsBuffer(b) && j < Size(b) && !IsSpace(b[j]) && b[j] != EndChar(isArray) && PName(b, j, isArray).Ok?
    requires FlawAt(b, SkipSpace(b, PName(b, j, isArray).next), f, code, strtod)
    ensures GroupFlawAt(b, j, isArray, flaw, code, strtod)
  {
    hide SkipSpace, PName, EndsAt, FlawedText, FlawedOk, NameOk, NameText, IsSpace, NameValue;
    var v := SkipSpace(b, PName(b, j, isArray).next);
    var name := ReadName(b, j, isArray, v);
    EndsFrom(b, j, v, FlawedText(f));
    EndsHead(b, v, FlawedText(f));
    flaw := InValue(name, f);
    if isArray {
      NoNameRead(b, j);
      SkipNothing(b, j);
    }
  }

  /** A child without a delimiter behind it. */
  lemma ReadDelimiterFlaw(b: Text, j: nat, isArray: bool, strtod: Strtod) returns (flaw: GroupFlaw)
    requires IsBuffer(b) && j < Size(b) < SIZE_MODULUS && Local(strtod) && !IsSpace(b[j])
    requires PName(b, j, isArray).Ok? && PValue(b, PName(b, j, isArray).next, strtod).Ok?
    requires var k := SkipSpace(b, PValue(b, PName(b, j, isArray).next, strtod).next);
             k < Size(b) ==> b[k] != COMMA && b[k] != EndChar(isArray)
    ensures var k := SkipSpace(b, PValue(b, PName(b, j, isArray).next, strtod).next);
            GroupFlawAt(b, j, isArray, flaw, if k == Size(b) then END_OF_BUFFER else OBJECT_INVALID, strtod)
  {
    hide SkipSpace, PName, PValue, Local, NameOk, NameText, IsSpace, DocText, DocOk, NameValue, DocValue, Blank, Stops,
         IsNumberChar, EndChar;
    var n := PName(b, j, isArray).next;
    var v := SkipSpace(b, n);
    var q := PValue(b, n, strtod).next;
    var k := SkipSpace(b, q);
    var name := ReadName(b, j, isArray, v);
    var doc := ReadValue(b, n, strtod);
    SkippedIsBlank(b, q);
    flaw := NoDelimiter(name, doc, b[q..k], Tail(b, k));
    DelimiterText(b, j, v, q, k, NameText(name), DocText(doc));
    TailSplit(b, q, k);
    TailSplit(b, q, q);
    AfterStops(b, q, doc);
  }

  lemma DelimiterText(b: Text, j: nat, v: nat, q: nat, k: nat, name: Text, doc: Text)
    requires IsBuffer(b) && j <= v <= q <= k <= Size(b) && name == b[j..v] && doc == b[v..q]
    ensures EndsAt(b, j, name + (doc + (b[q..k] + Tail(b, k))))
  {
    TailSplit(b, j, v);
    TailSplit(b, v, q);
    TailSplit(b, q, k);
    TailEnds(b, j);
  }

  lemma AfterStops(b: Text, q: nat, doc: Doc)
    requires IsBuffer(b) && q <= Size(b) && Delimited(b, q, doc)
    ensures doc.Num? ==> Stops(Tail(b, q))
    ensures doc.Lit? ==> Tail(b, q) != []
  {
  }

  // ---------------------------------------------------------------------
  // The refused language
  // ---------------------------------------------------------------------

  /** The text is white space and a flawed text with this code. */
  ghost predicate RefusedAs(text: Text, pre: Text, f: Flawed, code: int, strtod: Strtod) {
    && text == pre + FlawedText(f) && Blank(pre) && FlawedOk(f, strtod, |text|)
    && FlawedCode(f, strtod, |text|) == code
  }

  /** The parser refuses a text with a code exactly if it has a flaw with that code. */
  lemma RefusedExactly(text: Text, code: int, strtod: Strtod)
    requires |text| < SIZE_MODULUS && Local(strtod)
    ensures PParse(text + [0], strtod) == Err(code) <==> exists pre, f :: RefusedAs(text, pre, f, code, strtod)
  {
    hide PValue, FlawedText, FlawedOk, FlawedCode, Local, SkipSpace, Blank;
    var b := text + [0];
    TailEnds(b, 0);
    assert Tail(b, 0) == text;
    if PParse(b, strtod) == Err(code) {
      var f := ReadFlaw(b, 0, strtod);
      var i := SkipSpace(b, 0);
      SkippedIsBlank(b, 0);
      TailSplit(b, 0, i);
      assert RefusedAs(text, b[0..i], f, code, strtod);
    }
    if pre, f :| RefusedAs(text, pre, f, code, strtod) {
      FlawedHead(f, strtod, |text|);
      BlankThen(b, 0, pre, FlawedText(f));
      FlawFails(b, |pre|, f, strtod);
      SameValue(b, 0, |pre|, strtod);
    }
  }

  /** An integer out of range, wherever a value may start. */
  lemma LongNumberRefused(pre: Text, sign: Text, digits: Text, rest: Text, strtod: Strtod)
    requires Blank(pre) && IntRun(sign, digits, []) && digits != [] && !Fits64(Signed(sign, digits)) && Stops(rest)
    requires |pre + (sign + digits + rest)| < SIZE_MODULUS && Local(strtod)
    ensures PParse(pre + (sign + digits + rest) + [0], strtod) == Err(NUMBER_OVERFLOW)
  {
    hide Local, PParse, Signed, Fits64, IntRun, Stops;
    var f := InNumber(IntFlaw(sign, digits, []), rest);
    var text := pre + (sign + digits + rest);
    assert sign + digits + [] + rest == sign + digits + rest;
    IntDigits(sign, digits, []);
    assert RefusedAs(text, pre, f, NUMBER_OVERFLOW, strtod);
    RefusedExactly(text, NUMBER_OVERFLOW, strtod);
  }
}
