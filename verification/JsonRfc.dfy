/**
  The grammar of RFC 8259, sections 2 to 7, on the same documents, and how the
  accepted language differs from it.
*/
module JsonRfc {
  import opened Common
  import opened JsonSyntax
  import opened JsonParser
  import opened JsonGrammar
  import opened JsonAccepts
  import opened JsonSound

  // ---------------------------------------------------------------------
  // The grammar
  // ---------------------------------------------------------------------

  /** Section 2: space, horizontal tab, line feed and carriage return. */
  predicate RfcBlank(t: Text) {
    forall k :: 0 <= k < |t| ==> t[k] == SPACE || t[k] == TAB || t[k] == LF || t[k] == CR
  }

  /** Section 7. */
  predicate RfcChar(ch: Ch) {
    match ch
    case Raw(c) => c >= 0x20 && c != QUOTE && c != BACKSLASH
    case Esc(letter) => letter in {QUOTE, BACKSLASH, SLASH, 98, 102, 110, 114, 116}
    case Uni(hex) => |hex| == 4 && forall k :: 0 <= k < 4 ==> HexDigit(hex[k]) != -1
  }

  predicate RfcChars(chars: seq<Ch>) {
    forall k :: 0 <= k < |chars| ==> RfcChar(chars[k])
  }

  predicate AllDigits(t: Text) {
    forall k :: 0 <= k < |t| ==> IsDigit(t[k])
  }

  /** Section 6: a zero, or digits that do not start with one. */
  predicate RfcInt(t: Text) {
    t != [] && AllDigits(t) && (t[0] == ZERO ==> |t| == 1)
  }

  predicate RfcFrac(t: Text) {
    t == [] || (|t| > 1 && t[0] == DOT && AllDigits(t[1..]))
  }

  predicate RfcExp(t: Text) {
    t == [] ||
    ((t[0] == LOWER_E || t[0] == UPPER_E) &&
     if |t| > 1 && (t[1] == PLUS || t[1] == MINUS) then |t| > 2 && AllDigits(t[2..]) else |t| > 1 && AllDigits(t[1..]))
  }

  predicate RfcSign(t: Text) {
    t == [] || t == [MINUS]
  }

  ghost predicate RfcNumberOf(t: Text, sign: Text, n: Text, frac: Text, exp: Text) {
    t == sign + n + frac + exp && RfcSign(sign) && RfcInt(n) && RfcFrac(frac) && RfcExp(exp)
  }

  ghost predicate RfcNumber(t: Text) {
    exists sign, n, frac, exp :: RfcNumberOf(t, sign, n, frac, exp)
  }

  predicate RfcName(name: Option<Name>, isArray: bool) {
    match name
    case None => isArray
    case Some(l) => !isArray && RfcChars(l.chars) && RfcBlank(l.before) && RfcBlank(l.after)
  }

  /** Sections 3 to 5: items are separated by commas, and none follows the last. */
  ghost predicate RfcDoc(doc: Doc)
    decreases doc, 1
  {
    match doc
    case Lit(v) => v.Null? || v.Bool?
    case Num(text) => RfcNumber(text)
    case Quote(chars) => RfcChars(chars)
    case Group(isArray, items, trailing, close) =>
      !trailing && RfcBlank(close) && (items != [] ==> close == []) && RfcItems(isArray, items)
  }

  ghost predicate RfcItems(isArray: bool, items: seq<Item>)
    decreases items
  {
    items == [] || (RfcItem(isArray, items[0]) && RfcItems(isArray, items[1..]))
  }

  ghost predicate RfcItem(isArray: bool, item: Item)
    decreases item
  {
    RfcBlank(item.before) && RfcName(item.name, isArray) && RfcDoc(item.value) && RfcBlank(item.after)
  }

  // ---------------------------------------------------------------------
  // What the library can represent
  // ---------------------------------------------------------------------

  /** Escapes without a zero byte or a high surrogate. */
  predicate CharsFit(chars: seq<Ch>) {
    forall k :: 0 <= k < |chars| && chars[k].Uni? && |chars[k].hex| == 4 ==> UnicodeAt(chars[k].hex, 0, 4) >= 0
  }

  /** Integers of 64 bits, and floating-point numbers that the C library converts. */
  ghost predicate NumFits(text: Text, strtod: Strtod) {
    if HasFloatChar(text) then strtod(text).consumed == |text| && !strtod(text).range && LocalAt(strtod, text)
    else !StrToLL(text).range
  }

  ghost predicate DocFits(doc: Doc, strtod: Strtod)
    decreases doc, 1
  {
    match doc
    case Lit(_) => true
    case Num(text) => NumFits(text, strtod)
    case Quote(chars) => CharsFit(chars)
    case Group(_, items, _, _) => ItemsFit(items, strtod)
  }

  ghost predicate ItemsFit(items: seq<Item>, strtod: Strtod)
    decreases items
  {
    items == [] || (ItemFits(items[0], strtod) && ItemsFit(items[1..], strtod))
  }

  ghost predicate ItemFits(item: Item, strtod: Strtod)
    decreases item
  {
    (item.name.Some? ==> CharsFit(item.name.value.chars)) && DocFits(item.value, strtod)
  }

  // ---------------------------------------------------------------------
  // Every such text is accepted
  // ---------------------------------------------------------------------

  lemma RfcCharsOk(chars: seq<Ch>)
    requires RfcChars(chars) && CharsFit(chars)
    ensures CharsOk(chars)
  {
    forall k | 0 <= k < |chars|
      ensures ChOk(chars[k])
    {
      assert RfcChar(chars[k]);
    }
  }

  /** A signed run of digits is converted as a whole. */
  lemma DigitsScan(t: Text, start: nat)
    requires start < |t| && start <= 1 && AllDigits(t[start..])
    requires start == 1 <==> t[0] == MINUS || t[0] == PLUS
    ensures StrToLL(t).consumed == |t| && NumberRun(t) && !HasFloatChar(t)
  {
    hide DigitsValue;
    forall k | start <= k < |t|
      ensures IsDigit(t[k])
    {
      assert t[k] == t[start..][k - start];
    }
  }

  lemma FloatParts(t: Text, sign: Text, n: Text, frac: Text, exp: Text)
    requires RfcNumberOf(t, sign, n, frac, exp)
    ensures frac != [] || exp != [] ==> HasFloatChar(t)
  {
    if frac != [] {
      assert t[|sign + n|] == frac[0];
    } else if exp != [] {
      assert t[|sign + n|] == exp[0];
    }
  }

  /** The digits of a number in that grammar that has no fraction and no exponent. */
  lemma RfcNumberInt(t: Text)
    requires RfcNumber(t) && !HasFloatChar(t)
    ensures var start := if t != [] && t[0] == MINUS then 1 else 0;
            start < |t| && RfcInt(t[start..]) && t[0] != PLUS
  {
    var sign, n, frac, exp :| RfcNumberOf(t, sign, n, frac, exp);
    FloatParts(t, sign, n, frac, exp);
    assert t == sign + n;
    assert IsDigit(n[0]);
    assert t[0] == if sign == [] then n[0] else MINUS;
    assert t[|sign|..] == n;
  }

  lemma IntIsRfc(t: Text, start: nat)
    requires start < |t| && start <= 1 && (start == 1 ==> t[0] == MINUS) && RfcInt(t[start..])
    ensures RfcNumber(t)
  {
    assert t == t[..start] + t[start..] + [] + [];
    assert RfcNumberOf(t, t[..start], t[start..], [], []);
  }

  lemma RfcNumberRun(t: Text)
    requires RfcNumber(t)
    ensures NumberRun(t)
  {
    var sign, n, frac, exp :| RfcNumberOf(t, sign, n, frac, exp);
    assert t == sign + n + frac + exp;
    assert t[0] == if sign == [] then n[0] else MINUS;
    assert IsDigit(n[0]);
    forall k | 0 <= k < |exp|
      ensures IsNumberChar(exp[k])
    {
      assert k >= 2 ==> exp[k] == exp[2..][k - 2];
      assert k >= 1 ==> exp[k] == exp[1..][k - 1];
    }
    forall k | 0 <= k < |frac|
      ensures IsNumberChar(frac[k])
    {
      assert k >= 1 ==> frac[k] == frac[1..][k - 1];
    }
  }

  lemma RfcNumOk(t: Text, strtod: Strtod)
    requires RfcNumber(t) && NumFits(t, strtod)
    ensures NumOk(t, strtod)
  {
    hide RfcNumber, StrToLL, NumberRun;
    RfcNumberRun(t);
    if !HasFloatChar(t) {
      RfcNumberInt(t);
      DigitsScan(t, if t[0] == MINUS then 1 else 0);
    }
  }

  lemma RfcBlankOk(t: Text)
    requires RfcBlank(t)
    ensures Blank(t)
  {
  }

  /** A text of the grammar whose contents the library can represent is accepted. */
  lemma {:induction false} RfcDocOk(doc: Doc, strtod: Strtod)
    requires RfcDoc(doc) && DocFits(doc, strtod)
    ensures DocOk(doc, strtod)
    decreases doc, 1
  {
    hide RfcNumber, NumOk, NumFits, RfcChars, CharsFit, CharsOk, RfcBlank, Blank;
    match doc
    case Lit(_) =>
    case Num(text) => RfcNumOk(text, strtod);
    case Quote(chars) => RfcCharsOk(chars);
    case Group(isArray, items, trailing, close) =>
      RfcBlankOk(close);
      RfcItemsOk(isArray, items, strtod);
  }

  lemma {:induction false} RfcItemsOk(isArray: bool, items: seq<Item>, strtod: Strtod)
    requires RfcItems(isArray, items) && ItemsFit(items, strtod)
    ensures ItemsOk(isArray, items, strtod)
    decreases items
  {
    hide RfcChars, CharsFit, CharsOk, RfcBlank, Blank;
    if items != [] {
      var item := items[0];
      assert RfcItem(isArray, item) && ItemFits(item, strtod);
      RfcBlankOk(item.before);
      RfcBlankOk(item.after);
      if item.name.Some? {
        RfcBlankOk(item.name.value.before);
        RfcBlankOk(item.name.value.after);
        RfcCharsOk(item.name.value.chars);
      }
      RfcDocOk(item.value, strtod);
      RfcItemsOk(isArray, items[1..], strtod);
      assert ItemOk(isArray, item, strtod);
    }
  }

  // ---------------------------------------------------------------------
  // What is accepted besides
  // ---------------------------------------------------------------------

  datatype Extra =
    | TrailingComma | OddSpace | RawControl
    | PlusSign | LeadingZero | NoIntDigits | NoFracDigits | OddFloat

  function SpaceExtras(t: Text): set<Extra> {
    if RfcBlank(t) then {} else {OddSpace}
  }

  function CharsExtras(chars: seq<Ch>): set<Extra> {
    if exists k :: 0 <= k < |chars| && chars[k].Raw? && chars[k].c < 0x20 then {RawControl} else {}
  }

  /** Where the digits of a number start. */
  function SignLength(t: Text): (n: nat)
    ensures n <= 1 && n <= |t|
  {
    if t != [] && (t[0] == MINUS || t[0] == PLUS) then 1 else 0
  }

  /** Leading zeros, as in 007 or -00.5. */
  predicate HasLeadingZero(t: Text) {
    var start := SignLength(t);
    start + 1 < |t| && t[start] == ZERO && IsDigit(t[start + 1])
  }

  /** No digit before the point, as in -.5. */
  predicate LacksInt(t: Text) {
    DigitRun(t, SignLength(t)) == SignLength(t)
  }

  /** A point, but no digit after it, as in 1. or 1.e3. */
  predicate LacksFrac(t: Text) {
    var point := DigitRun(t, SignLength(t));
    point < |t| && t[point] == DOT && (point + 1 == |t| || !IsDigit(t[point + 1]))
  }

  /** The decimal numbers of the C library: a sign, digits with a point among them or not, and an exponent. */
  ghost predicate CDecimalOf(t: Text, sign: Text, n: Text, frac: Text, exp: Text) {
    && t == sign + n + frac + exp
    && (RfcSign(sign) || sign == [PLUS]) && AllDigits(n) && RfcExp(exp)
    && (frac == [] || (frac[0] == DOT && AllDigits(frac[1..])))
    && (n != [] || |frac| > 1)
  }

  ghost predicate CDecimal(t: Text) {
    exists sign, n, frac, exp :: CDecimalOf(t, sign, n, frac, exp)
  }

  /** A conversion that takes just those numbers as a whole. */
  ghost predicate Standard(strtod: Strtod) {
    forall t :: NumberRun(t) && HasFloatChar(t) ==> (Scan(strtod, t).consumed == |t| <==> CDecimal(t))
  }

  ghost function NumExtras(t: Text): set<Extra> {
    if !CDecimal(t) then {OddFloat}
    else
      (if t != [] && t[0] == PLUS then {PlusSign} else {})
      + (if HasLeadingZero(t) then {LeadingZero} else {})
      + (if LacksInt(t) then {NoIntDigits} else {})
      + (if LacksFrac(t) then {NoFracDigits} else {})
  }

  ghost function DocExtras(doc: Doc): set<Extra>
    decreases doc, 1
  {
    match doc
    case Lit(_) => {}
    case Num(text) => NumExtras(text)
    case Quote(chars) => CharsExtras(chars)
    case Group(_, items, trailing, close) =>
      (if trailing then {TrailingComma} else {}) + SpaceExtras(close) + ItemsExtras(items)
  }

  ghost function ItemsExtras(items: seq<Item>): set<Extra>
    decreases items
  {
    if items == [] then {} else ItemExtras(items[0]) + ItemsExtras(items[1..])
  }

  ghost function ItemExtras(item: Item): set<Extra>
    decreases item
  {
    SpaceExtras(item.before) + NameExtras(item.name) + DocExtras(item.value) + SpaceExtras(item.after)
  }

  function NameExtras(name: Option<Name>): set<Extra> {
    match name
    case None => {}
    case Some(l) => CharsExtras(l.chars) + SpaceExtras(l.before) + SpaceExtras(l.after)
  }

  lemma CharsExact(chars: seq<Ch>)
    requires CharsOk(chars)
    ensures RfcChars(chars) <==> CharsExtras(chars) == {}
  {
    if CharsExtras(chars) == {} {
      forall k | 0 <= k < |chars|
        ensures RfcChar(chars[k])
      {
        assert ChOk(chars[k]);
        if chars[k].Uni? {
          AllHex(chars[k].hex);
        }
      }
    } else {
      assert RawControl in CharsExtras(chars);
      var k :| 0 <= k < |chars| && chars[k].Raw? && chars[k].c < 0x20;
      assert !RfcChar(chars[k]);
    }
  }

  lemma AllHex(hex: Text)
    requires |hex| == 4 && UnicodeAt(hex, 0, 4) >= 0
    ensures forall k :: 0 <= k < 4 ==> HexDigit(hex[k]) != -1
  {
  }

  /** A text of three parts, index by index. */
  predicate Joined(t: Text, a: Text, b: Text, c: Text) {
    && |t| == |a| + |b| + |c|
    && (forall k :: 0 <= k < |a| ==> t[k] == a[k])
    && (forall k :: |a| <= k < |a| + |b| ==> t[k] == b[k - |a|])
    && (forall k :: |a| + |b| <= k < |t| ==> t[k] == c[k - |a| - |b|])
  }

  lemma Joins(a: Text, b: Text, c: Text)
    ensures Joined(a + b + c, a, b, c)
  {
  }

  /** What stands at the point of a decimal number, and behind it. */
  lemma AfterDigits(frac: Text, exp: Text)
    requires RfcExp(exp) && (frac == [] || (frac[0] == DOT && AllDigits(frac[1..])))
    ensures var rest := frac + exp;
            && (frac != [] ==> rest != [] && rest[0] == DOT)
            && (frac == [] && rest != [] ==> rest[0] != DOT)
            && (rest != [] ==> !IsDigit(rest[0]))
            && (|frac| > 1 ==> |rest| > 1 && IsDigit(rest[1]))
            && (|frac| == 1 && |rest| > 1 ==> !IsDigit(rest[1]))
  {
    var rest := frac + exp;
    if |frac| > 1 {
      assert rest[1] == frac[1..][0];
    } else if |frac| == 1 && exp != [] {
      assert rest[1] == exp[0];
    } else if frac == [] {
      assert rest == exp;
    }
  }

  /** The parts of a decimal number, found by scanning it. */
  lemma DecimalParts(t: Text, sign: Text, n: Text, frac: Text, exp: Text)
    requires CDecimalOf(t, sign, n, frac, exp)
    ensures t != [] && SignLength(t) == |sign| && (sign == [PLUS] <==> t[0] == PLUS)
    ensures DigitRun(t, |sign|) == |sign| + |n| <= |t|
    ensures n != [] ==> t[|sign|] == n[0]
    ensures |n| > 1 ==> t[|sign| + 1] == n[1]
    ensures var point := |sign| + |n|;
            && (frac != [] ==> point < |t| && t[point] == DOT)
            && (frac == [] && point < |t| ==> t[point] != DOT && !IsDigit(t[point]))
            && (|frac| > 1 ==> point + 1 < |t| && IsDigit(t[point + 1]))
            && (|frac| == 1 && point + 1 < |t| ==> !IsDigit(t[point + 1]))
  {
    hide RfcExp, AllDigits, Joined, DigitRun, SignLength, CDecimalOf, RfcSign, IsDigit;
    var rest := frac + exp;
    DecimalJoined(t, sign, n, frac, exp);
    AfterDigits(frac, exp);
    PointFacts(t, sign, n, rest);
    SignFacts(t, sign, n, rest);
  }

  lemma DecimalJoined(t: Text, sign: Text, n: Text, frac: Text, exp: Text)
    requires CDecimalOf(t, sign, n, frac, exp)
    ensures Joined(t, sign, n, frac + exp) && (RfcSign(sign) || sign == [PLUS]) && AllDigits(n) && RfcExp(exp)
    ensures frac == [] || (frac[0] == DOT && AllDigits(frac[1..]))
    ensures n == [] ==> |frac| > 1
  {
    hide RfcExp, AllDigits, Joined;
    assert t == sign + n + (frac + exp);
    Joins(sign, n, frac + exp);
  }

  lemma PointFacts(t: Text, sign: Text, n: Text, rest: Text)
    requires Joined(t, sign, n, rest) && AllDigits(n) && (rest != [] ==> !IsDigit(rest[0]))
    ensures |t| == |sign| + |n| + |rest|
    ensures DigitRun(t, |sign|) == |sign| + |n|
    ensures n != [] ==> t[|sign|] == n[0]
    ensures |n| > 1 ==> t[|sign| + 1] == n[1]
    ensures rest != [] ==> t[|sign| + |n|] == rest[0]
    ensures |rest| > 1 ==> t[|sign| + |n| + 1] == rest[1]
  {
    var point := |sign| + |n|;
    forall k | |sign| <= k < point
      ensures IsDigit(t[k])
    {
      assert t[k] == n[k - |sign|];
    }
    assert rest != [] ==> t[point] == rest[0];
  }

  lemma SignFacts(t: Text, sign: Text, n: Text, rest: Text)
    requires Joined(t, sign, n, rest) && AllDigits(n) && (RfcSign(sign) || sign == [PLUS])
    requires n == [] ==> rest != [] && rest[0] == DOT
    ensures t != [] && SignLength(t) == |sign| && (sign == [PLUS] <==> t[0] == PLUS)
  {
    assert sign == [] ==> t[0] == if n != [] then n[0] else rest[0];
    assert n != [] ==> IsDigit(n[0]);
  }

  /** The decimal numbers of the C library that the grammar has, too, are those without one of four extras. */
  lemma DecimalExact(t: Text)
    requires CDecimal(t)
    ensures t != []
    ensures RfcNumber(t) <==> t[0] != PLUS && !HasLeadingZero(t) && !LacksInt(t) && !LacksFrac(t)
  {
    var sign, n, frac, exp :| CDecimalOf(t, sign, n, frac, exp);
    DecimalParts(t, sign, n, frac, exp);
    if t[0] != PLUS && !HasLeadingZero(t) && !LacksInt(t) && !LacksFrac(t) {
      assert n != [] && (n[0] == ZERO ==> |n| == 1);
      assert RfcNumberOf(t, sign, n, frac, exp);
    }
    if RfcNumber(t) {
      RfcWithoutExtras(t);
    }
  }

  lemma RfcWithoutExtras(t: Text)
    requires RfcNumber(t)
    ensures CDecimal(t) && t[0] != PLUS && !HasLeadingZero(t) && !LacksInt(t) && !LacksFrac(t)
  {
    var sign, n, frac, exp :| RfcNumberOf(t, sign, n, frac, exp);
    assert CDecimalOf(t, sign, n, frac, exp);
    DecimalParts(t, sign, n, frac, exp);
    if |n| == 1 && |sign| + 1 < |t| {
      assert !IsDigit(t[|sign| + 1]);
    }
  }

  /** An accepted number follows the grammar if and only if it has no extra. */
  lemma NumExact(t: Text)
    ensures RfcNumber(t) <==> NumExtras(t) == {}
  {
    hide RfcNumber, CDecimal, HasLeadingZero, LacksInt, LacksFrac;
    if CDecimal(t) {
      DecimalExact(t);
      assert t[0] == PLUS ==> PlusSign in NumExtras(t);
      assert HasLeadingZero(t) ==> LeadingZero in NumExtras(t);
      assert LacksInt(t) ==> NoIntDigits in NumExtras(t);
      assert LacksFrac(t) ==> NoFracDigits in NumExtras(t);
    } else {
      assert OddFloat in NumExtras(t);
      if RfcNumber(t) {
        RfcWithoutExtras(t);
      }
    }
  }

  /** With a standard conversion every accepted number is a decimal number of the C library. */
  lemma AcceptedIsDecimal(t: Text, strtod: Strtod)
    requires NumOk(t, strtod) && (HasFloatChar(t) ==> Standard(strtod))
    ensures CDecimal(t) && OddFloat !in NumExtras(t)
  {
    hide CDecimal, HasLeadingZero, LacksInt, LacksFrac, StrToLL;
    if HasFloatChar(t) {
      assert Scan(strtod, t).consumed == |t|;
    } else {
      var start := SignLength(t);
      ScannedDigits(t, start);
      IntIsDecimal(t);
    }
  }

  lemma IntIsDecimal(t: Text)
    requires SignLength(t) < |t| && AllDigits(t[SignLength(t)..])
    ensures CDecimal(t)
  {
    var start := SignLength(t);
    assert t == t[..start] + t[start..] + [] + [];
    assert CDecimalOf(t, t[..start], t[start..], [], []);
  }

  lemma ScannedDigits(t: Text, start: nat)
    requires t != [] && StrToLL(t).consumed == |t| && start == if t[0] == MINUS || t[0] == PLUS then 1 else 0
    ensures start < |t| && AllDigits(t[start..])
  {
    hide DigitsValue;
    forall k | 0 <= k < |t[start..]|
      ensures IsDigit(t[start..][k])
    {
      assert t[start..][k] == t[start + k];
    }
  }

  lemma SpaceExact(t: Text)
    ensures RfcBlank(t) <==> SpaceExtras(t) == {}
  {
    assert !RfcBlank(t) ==> OddSpace in SpaceExtras(t);
  }

  /** An accepted document follows the grammar if and only if it uses none of the listed extras. */
  lemma {:induction false} ExtrasExact(doc: Doc, strtod: Strtod)
    requires DocOk(doc, strtod)
    ensures RfcDoc(doc) <==> DocExtras(doc) == {}
    decreases doc, 1
  {
    hide RfcNumber, NumOk, NumExtras, RfcChars, CharsExtras, CharsOk, RfcBlank, SpaceExtras;
    match doc
    case Lit(_) =>
    case Num(text) => NumExact(text);
    case Quote(chars) => CharsExact(chars);
    case Group(isArray, items, trailing, close) =>
      SpaceExact(close);
      ItemsExact(isArray, items, strtod);
      var own := if trailing then {TrailingComma} else {};
      assert trailing ==> TrailingComma in own;
      EmptyUnion(own, SpaceExtras(close));
      EmptyUnion(own + SpaceExtras(close), ItemsExtras(items));
  }

  /** A standard conversion leaves no other spelling. */
  lemma {:induction false} NoOddFloat(doc: Doc, strtod: Strtod)
    requires DocOk(doc, strtod) && Standard(strtod)
    ensures OddFloat !in DocExtras(doc)
    decreases doc, 1
  {
    hide NumOk, NumExtras, CharsOk, Standard;
    match doc
    case Lit(_) =>
    case Num(text) => AcceptedIsDecimal(text, strtod);
    case Quote(chars) =>
    case Group(isArray, items, trailing, close) => NoOddFloats(isArray, items, strtod);
  }

  lemma {:induction false} NoOddFloats(isArray: bool, items: seq<Item>, strtod: Strtod)
    requires ItemsOk(isArray, items, strtod) && Standard(strtod)
    ensures OddFloat !in ItemsExtras(items)
    decreases items
  {
    hide Standard;
    if items != [] {
      assert ItemOk(isArray, items[0], strtod);
      NoOddFloat(items[0].value, strtod);
      NoOddFloats(isArray, items[1..], strtod);
      assert OddFloat !in ItemExtras(items[0]);
    }
  }

  lemma EmptyUnion(a: set<Extra>, b: set<Extra>)
    ensures a + b == {} <==> a == {} && b == {}
  {
    assert a <= a + b && b <= a + b;
  }

  lemma {:induction false} ItemsExact(isArray: bool, items: seq<Item>, strtod: Strtod)
    requires ItemsOk(isArray, items, strtod)
    ensures RfcItems(isArray, items) <==> ItemsExtras(items) == {}
    decreases items
  {
    hide RfcItem, ItemExtras, ItemOk;
    if items != [] {
      ItemExact(isArray, items[0], strtod);
      ItemsExact(isArray, items[1..], strtod);
      EmptyUnion(ItemExtras(items[0]), ItemsExtras(items[1..]));
    }
  }

  lemma {:induction false} ItemExact(isArray: bool, item: Item, strtod: Strtod)
    requires ItemOk(isArray, item, strtod)
    ensures RfcItem(isArray, item) <==> ItemExtras(item) == {}
    decreases item
  {
    hide RfcChars, CharsExtras, CharsOk, RfcBlank, SpaceExtras, DocOk, RfcDoc, DocExtras;
    SpaceExact(item.before);
    SpaceExact(item.after);
    ExtrasExact(item.value, strtod);
    NameExact(item.name, isArray);
    var a, b := SpaceExtras(item.before), NameExtras(item.name);
    EmptyUnion(a, b);
    EmptyUnion(a + b, DocExtras(item.value));
    EmptyUnion(a + b + DocExtras(item.value), SpaceExtras(item.after));
  }

  lemma NameExact(name: Option<Name>, isArray: bool)
    requires NameOk(name, isArray)
    ensures RfcName(name, isArray) <==> NameExtras(name) == {}
  {
    hide RfcChars, CharsExtras, CharsOk, RfcBlank, SpaceExtras;
    match name
    case None =>
    case Some(l) =>
      CharsExact(l.chars);
      SpaceExact(l.before);
      SpaceExact(l.after);
      EmptyUnion(CharsExtras(l.chars), SpaceExtras(l.before));
      EmptyUnion(CharsExtras(l.chars) + SpaceExtras(l.before), SpaceExtras(l.after));
  }

  // ---------------------------------------------------------------------
  // Whole texts
  // ---------------------------------------------------------------------

  /**
    Every text of the grammar that the library can represent is accepted with
    its value, exactly unless a bare literal ends with the buffer.
  */
  lemma RfcTextAccepted(pre: Text, doc: Doc, post: Text, strtod: Strtod)
    requires RfcBlank(pre) && RfcDoc(doc) && RfcBlank(post) && DocFits(doc, strtod)
    requires |pre + DocText(doc) + post| < SIZE_MODULUS
    ensures DocOk(doc, strtod)
    ensures PParse(pre + DocText(doc) + post + [0], strtod) ==
              if doc.Lit? && post == [] then Err(END_OF_BUFFER)
              else Ok(Node(None, DocValue(doc, strtod)), |pre + DocText(doc)|)
  {
    hide DocText, RfcDoc, DocFits, DocOk, DocValue, PValue, RfcBlank, IsNumberChar;
    RfcDocOk(doc, strtod);
    RfcBlankOk(pre);
    FollowingText(post);
    TextParses(pre, doc, post, strtod);
  }

  lemma FollowingText(post: Text)
    requires RfcBlank(post)
    ensures !IsNumberChar((post + [0])[0])
  {
  }

  /** A document in a buffer, after white space and before any text that does not continue a number. */
  lemma TextParses(pre: Text, doc: Doc, post: Text, strtod: Strtod)
    requires Blank(pre) && DocOk(doc, strtod) && |pre + DocText(doc) + post| < SIZE_MODULUS
    requires !IsNumberChar((post + [0])[0])
    ensures PParse(pre + DocText(doc) + post + [0], strtod) ==
              if doc.Lit? && post == [] then Err(END_OF_BUFFER)
              else Ok(Node(None, DocValue(doc, strtod)), |pre + DocText(doc)|)
  {
    hide DocText, DocOk, DocValue, PValue, Blank, IsNumberChar, At, Gap;
    var b := pre + DocText(doc) + post + [0];
    var t := DocText(doc);
    DocHead(doc, strtod);
    AtHere(pre, t, post);
    AtSplit(b, 0, pre, t);
    AtHead(b, |pre|, t);
    BlankGap(b, 0, pre);
    assert b[|pre + t|] == (post + [0])[0];
    DocParses(b, |pre|, doc, strtod);
    PValueSkips(b, 0, |pre|, strtod);
  }

  lemma AtHere(pre: Text, t: Text, post: Text)
    ensures At(pre + t + post + [0], 0, pre + t)
  {
  }

  // ---------------------------------------------------------------------
  // Trailing commas and the other extras
  // ---------------------------------------------------------------------

  const ONE: Item := Item([], None, Num([49]), [])

  /** The text [1,] is accepted, as an array with one element. */
  lemma TrailingCommaAccepted(strtod: Strtod)
    ensures PParse([OPEN_ARR, 49, COMMA, CLOSE_ARR, 0], strtod) == Ok(Node(None, Cont(true, [Node(None, Int(1))])), 4)
  {
    hide PParse, DocText;
    var doc := Group(true, [ONE], true, []);
    OneOk(strtod);
    assert DocOk(doc, strtod);
    OneCommaText();
    TextParses([], doc, [], strtod);
    assert [] + DocText(doc) + [] + [0] == [OPEN_ARR, 49, COMMA, CLOSE_ARR, 0];
    assert [ONE][1..] == [];
    assert ItemsValue(true, [ONE], strtod) == [Node(None, Int(1))];
  }

  lemma OneCommaText()
    ensures DocText(Group(true, [ONE], true, [])) == [OPEN_ARR, 49, COMMA, CLOSE_ARR]
  {
    assert ItemText(ONE) == [49];
    assert [ONE][1..] == [];
    assert ItemsText(true, [], true, []) == [CLOSE_ARR];
    assert ItemsText(true, [ONE], true, []) == [49] + ([COMMA] + [CLOSE_ARR]);
  }

  lemma OneOk(strtod: Strtod)
    ensures NumOk([49], strtod) && NumValue([49], strtod) == Int(1)
    ensures ItemOk(true, ONE, strtod) && ItemsOk(true, [ONE], strtod)
  {
    DigitsScan([49], 0);
    assert [49][0..1] == [49] && [49][..0] == [];
    assert DigitsValue([49]) == 1;
    assert ItemOk(true, ONE, strtod);
  }

  /** Each of the extras alone; those of floating-point numbers are in `OddFloatsOccur`. */
  lemma ExtrasOccur(strtod: Strtod)
    ensures var doc := Group(true, [ONE], true, []); DocOk(doc, strtod) && DocExtras(doc) == {TrailingComma}
    ensures var doc := Group(true, [], false, [11]); DocOk(doc, strtod) && DocExtras(doc) == {OddSpace}
    ensures var doc := Quote([Raw(1)]); DocOk(doc, strtod) && DocExtras(doc) == {RawControl}
    ensures var doc := Num([PLUS, 49]); DocOk(doc, strtod) && DocExtras(doc) == {PlusSign}
    ensures var doc := Num([ZERO, 49]); DocOk(doc, strtod) && DocExtras(doc) == {LeadingZero}
  {
    hide NumOk, NumExtras, ItemOk, ItemExtras;
    OneOk(strtod);
    OneExtras();
    assert ItemsExtras([ONE]) == {};
    assert !RfcBlank([11]) by { assert [11][0] == 11; }
    assert CharsExtras([Raw(1)]) == {RawControl} by { assert [Raw(1)][0] == Raw(1); }
    OddIntegers(strtod);
  }

  lemma OddIntegers(strtod: Strtod)
    ensures NumOk([PLUS, 49], strtod) && NumExtras([PLUS, 49]) == {PlusSign}
    ensures NumOk([ZERO, 49], strtod) && NumExtras([ZERO, 49]) == {LeadingZero}
  {
    hide CDecimal;
    DigitsScan([PLUS, 49], 1);
    DigitsScan([ZERO, 49], 0);
    assert [PLUS, 49][1..2] == [49] && [ZERO, 49][0..2] == [ZERO, 49] && [ZERO, 49][..1] == [ZERO];
    assert [49][..0] == [] && [ZERO][..0] == [];
    assert DigitsValue([49]) == 1 && DigitsValue([ZERO]) == 0 && DigitsValue([ZERO, 49]) == 1;
    IntIsDecimal([PLUS, 49]);
    IntIsDecimal([ZERO, 49]);
  }

  /** The numbers 1. and -.5 are accepted by a standard conversion that has them in range. */
  lemma OddFloatsOccur(strtod: Strtod)
    requires Standard(strtod) && Local(strtod)
    requires !strtod([49, DOT]).range && !strtod([MINUS, DOT, 53]).range
    ensures DocOk(Num([49, DOT]), strtod) && DocExtras(Num([49, DOT])) == {NoFracDigits}
    ensures DocOk(Num([MINUS, DOT, 53]), strtod) && DocExtras(Num([MINUS, DOT, 53])) == {NoIntDigits}
  {
    hide NumOk, NumExtras, Standard, Local;
    PointLast(strtod);
    PointFirst(strtod);
  }

  lemma FloatAccepted(t: Text, strtod: Strtod)
    requires Standard(strtod) && Local(strtod) && !strtod(t).range && NumberRun(t) && HasFloatChar(t) && CDecimal(t)
    ensures NumOk(t, strtod)
  {
    hide CDecimal, HasFloatChar;
    assert LocalAt(strtod, t);
    assert Scan(strtod, t).consumed == |t|;
  }

  lemma PointLast(strtod: Strtod)
    requires Standard(strtod) && Local(strtod) && !strtod([49, DOT]).range
    ensures NumOk([49, DOT], strtod) && NumExtras([49, DOT]) == {NoFracDigits}
  {
    hide Standard, Local, NumOk;
    var t := [49, DOT];
    assert CDecimalOf(t, [], [49], [DOT], []);
    DecimalParts(t, [], [49], [DOT], []);
    assert IsFloatChar(t[1]);
    FloatAccepted(t, strtod);
  }

  lemma PointFirst(strtod: Strtod)
    requires Standard(strtod) && Local(strtod) && !strtod([MINUS, DOT, 53]).range
    ensures NumOk([MINUS, DOT, 53], strtod) && NumExtras([MINUS, DOT, 53]) == {NoIntDigits}
  {
    hide Standard, Local, NumOk;
    var t := [MINUS, DOT, 53];
    assert CDecimalOf(t, [MINUS], [], [DOT, 53], []);
    DecimalParts(t, [MINUS], [], [DOT, 53], []);
    assert IsFloatChar(t[1]);
    FloatAccepted(t, strtod);
  }

  lemma OneExtras()
    ensures ItemExtras(ONE) == {}
  {
    IntIsDecimal([49]);
  }

  /** A list of section 5: items separated by commas, where an item must follow every comma. */
  function StrictItems(b: Text, i: nat, isArray: bool, strtod: Strtod): (r: Parsed<seq<Node<Text>>>)
    requires IsBuffer(b) && i < Size(b) < SIZE_MODULUS
    decreases Size(b) - i
  {
    match PChild(b, i, isArray, strtod)
    case Err(code) => Err(code)
    case Ok(kid, k) =>
      if b[k] == EndChar(isArray) then Ok([kid], k + 1)
      else if b[k] != COMMA then Err(OBJECT_INVALID)
      else
        var n := SkipSpace(b, k + 1);
        if n == Size(b) then Err(END_OF_BUFFER) else AddKids([kid], StrictItems(b, n, isArray, strtod))
  }

  function StrictKids(b: Text, i: nat, isArray: bool, strtod: Strtod): (r: Parsed<seq<Node<Text>>>)
    requires IsBuffer(b) && i < Size(b) < SIZE_MODULUS
  {
    if b[i] == EndChar(isArray) then Ok([], i + 1) else StrictItems(b, i, isArray, strtod)
  }

  /** The commas that separate the items of a list. */
  function ListCommas(b: Text, i: nat, isArray: bool, strtod: Strtod): seq<nat>
    requires IsBuffer(b) && i < Size(b) < SIZE_MODULUS
    decreases Size(b) - i
  {
    var kid := PChild(b, i, isArray, strtod);
    if b[i] == EndChar(isArray) || kid.Err? || b[kid.next] != COMMA then []
    else
      var n := SkipSpace(b, kid.next + 1);
      [kid.next] + if n == Size(b) then [] else ListCommas(b, n, isArray, strtod)
  }

  /** The next character that is not white space closes the list. */
  predicate ClosesAfter(b: Text, k: nat, isArray: bool) {
    IsBuffer(b) && k < Size(b) && var n := SkipSpace(b, k + 1); n < Size(b) && b[n] == EndChar(isArray)
  }

  ghost predicate NoneCloses(b: Text, commas: seq<nat>, isArray: bool) {
    forall k :: 0 <= k < |commas| ==> !ClosesAfter(b, commas[k], isArray)
  }

  /** A bracket is not an item. */
  lemma NoItemAtClose(b: Text, i: nat, isArray: bool, strtod: Strtod)
    requires IsBuffer(b) && i < Size(b) < SIZE_MODULUS && b[i] == EndChar(isArray)
    ensures PChild(b, i, isArray, strtod).Err?
  {
    hide SkipSpace;
    GapSkip(b, i, i);
  }

  lemma AddKidsInjective(kids: seq<Node<Text>>, r: Parsed<seq<Node<Text>>>, s: Parsed<seq<Node<Text>>>)
    ensures AddKids(kids, r) == AddKids(kids, s) <==> r == s
  {
    if r.Ok? && s.Ok? && kids + r.value == kids + s.value {
      assert r.value == (kids + r.value)[|kids|..] == s.value;
    }
  }

  lemma NoneClosesFirst(b: Text, k: nat, rest: seq<nat>, isArray: bool)
    ensures NoneCloses(b, [k] + rest, isArray) <==> !ClosesAfter(b, k, isArray) && NoneCloses(b, rest, isArray)
    ensures NoneCloses(b, [], isArray)
  {
    var commas := [k] + rest;
    assert commas[0] == k && commas[1..] == rest;
    if NoneCloses(b, commas, isArray) {
      forall j | 0 <= j < |rest|
        ensures !ClosesAfter(b, rest[j], isArray)
      {
        assert rest[j] == commas[j + 1];
      }
    }
  }

  /**
    The parser agrees with the strict list if and only if no comma of the list
    is followed, after white space, by the closing bracket.
  */
  lemma {:induction false} StrictListExact(b: Text, i: nat, isArray: bool, strtod: Strtod)
    requires IsBuffer(b) && i < Size(b) < SIZE_MODULUS
    ensures StrictKids(b, i, isArray, strtod) == PKids(b, i, isArray, strtod)
            <==> NoneCloses(b, ListCommas(b, i, isArray, strtod), isArray)
    decreases Size(b) - i
  {
    hide PChild, SkipSpace, PKids, AddKids, NoneCloses, StrictItems, ListCommas, ClosesAfter;
    PKidsUnfold(b, i, isArray, strtod);
    StrictUnfold(b, i, isArray, strtod);
    NoneClosesFirst(b, 0, [], isArray);
    var kid := PChild(b, i, isArray, strtod);
    if b[i] != EndChar(isArray) && kid.Ok? && b[kid.next] == COMMA && SkipSpace(b, kid.next + 1) < Size(b) {
      StrictListExact(b, SkipSpace(b, kid.next + 1), isArray, strtod);
      StrictStep(b, kid.value, kid.next, isArray, strtod);
    }
  }

  lemma StrictUnfold(b: Text, i: nat, isArray: bool, strtod: Strtod)
    requires IsBuffer(b) && i < Size(b) < SIZE_MODULUS
    ensures var kid := PChild(b, i, isArray, strtod);
            && StrictItems(b, i, isArray, strtod) ==
                 (if kid.Err? then Err(kid.code)
                  else if b[kid.next] == EndChar(isArray) then Ok([kid.value], kid.next + 1)
                  else if b[kid.next] != COMMA then Err(OBJECT_INVALID)
                  else if SkipSpace(b, kid.next + 1) == Size(b) then Err(END_OF_BUFFER)
                  else AddKids([kid.value], StrictItems(b, SkipSpace(b, kid.next + 1), isArray, strtod)))
            && (b[i] == EndChar(isArray) || kid.Err? || b[kid.next] != COMMA ==>
                  ListCommas(b, i, isArray, strtod) == [])
    ensures var kid := PChild(b, i, isArray, strtod);
            b[i] != EndChar(isArray) && kid.Ok? && b[kid.next] == COMMA ==>
              if SkipSpace(b, kid.next + 1) == Size(b)
              then NoneCloses(b, ListCommas(b, i, isArray, strtod), isArray)
              else ListCommas(b, i, isArray, strtod)
                   == [kid.next] + ListCommas(b, SkipSpace(b, kid.next + 1), isArray, strtod)
  {
    hide PChild, SkipSpace, AddKids;
  }

  /** A comma at `k`, before a list for which the claim holds. */
  lemma StrictStep(b: Text, kid: Node<Text>, k: nat, isArray: bool, strtod: Strtod)
    requires IsBuffer(b) && k < Size(b) < SIZE_MODULUS && SkipSpace(b, k + 1) < Size(b)
    requires var n := SkipSpace(b, k + 1);
             StrictKids(b, n, isArray, strtod) == PKids(b, n, isArray, strtod)
             <==> NoneCloses(b, ListCommas(b, n, isArray, strtod), isArray)
    ensures var n := SkipSpace(b, k + 1);
            AddKids([kid], StrictItems(b, n, isArray, strtod)) == AddKids([kid], PKids(b, n, isArray, strtod))
            <==> NoneCloses(b, [k] + ListCommas(b, n, isArray, strtod), isArray)
  {
    hide PChild, SkipSpace, PKids, AddKids, NoneCloses, StrictItems, ListCommas;
    var n := SkipSpace(b, k + 1);
    NoneClosesFirst(b, k, ListCommas(b, n, isArray, strtod), isArray);
    AddKidsInjective([kid], StrictItems(b, n, isArray, strtod), PKids(b, n, isArray, strtod));
    PKidsUnfold(b, n, isArray, strtod);
    StrictUnfold(b, n, isArray, strtod);
    if b[n] == EndChar(isArray) {
      NoItemAtClose(b, n, isArray, strtod);
    }
  }
}
