/**
  What the parser refuses, and with which code: a grammar of flawed texts, each
  with the place and the kind of its first flaw. That the parser returns exactly
  these codes for exactly these texts is proved in `JsonRefuses`.
*/
module JsonFlaws {
  import opened Common
  import opened JsonSyntax
  import opened JsonParser
  import opened JsonGrammar
  import opened JsonStrings

  // ---------------------------------------------------------------------
  // Strings
  // ---------------------------------------------------------------------

  /** Between the quotes: any character but a quote, a line feed or a backslash, or a backslash with any other. */
  predicate Body(t: Text) {
    || t == []
    || (t[0] == BACKSLASH && |t| > 1 && Body(t[2..]))
    || (t[0] != BACKSLASH && t[0] != QUOTE && t[0] != LF && Body(t[1..]))
  }

  /** What is wrong with the text behind an opening quote. */
  datatype StringFlaw =
    | LineFeed(body: Text, rest: Text)
    | NoQuote(body: Text, last: Text)
    | BadEscape(chars: seq<Ch>, bad: Text, rest: Text)

  function StringFlawText(flaw: StringFlaw): Text {
    match flaw
    case LineFeed(body, rest) => body + ([LF] + rest)
    case NoQuote(body, last) => body + last
    case BadEscape(chars, bad, rest) => (CharsText(chars) + ([BACKSLASH] + bad)) + ([QUOTE] + rest)
  }

  /** Four hexadecimal digits of a number with two non-zero bytes that is no high surrogate. */
  predicate GoodUnicode(hex: Text) {
    && |hex| == 4 && (forall k :: 0 <= k < 4 ==> HexDigit(hex[k]) != -1)
    && HexValue(hex) / 256 != 0 && HexValue(hex) % 256 != 0 && !(0xD800 <= HexValue(hex) <= 0xDBFF)
  }

  predicate IsEscapeLetter(c: Byte) {
    c as char in {'"', '\\', '/', 'b', 'f', 'n', 'r', 't'}
  }

  /** What the text behind a backslash is refused with, up to the end of the string. */
  function EscapeCode(bad: Text): int
    requires bad != []
  {
    if bad[0] as char == 'u' then
      if |bad| < 5 then END_OF_BUFFER
      else if GoodUnicode(bad[1..5]) then JSON_OK
      else STRING_INVALID_ESC
    else if IsEscapeLetter(bad[0]) then JSON_OK
    else STRING_INVALID_ESC
  }

  /**
    A line feed and a missing quote are found first, wherever escapes are; then
    the first bad escape is.
  */
  predicate StringFlawOk(flaw: StringFlaw) {
    match flaw
    case LineFeed(body, rest) => Body(body)
    case NoQuote(body, last) => Body(body) && (last == [] || last == [BACKSLASH])
    case BadEscape(chars, bad, rest) =>
      CharsOk(chars) && bad != [] && Body(CharsText(chars) + ([BACKSLASH] + bad)) && EscapeCode(bad) != JSON_OK
  }

  function StringFlawCode(flaw: StringFlaw): int
    requires StringFlawOk(flaw)
  {
    match flaw
    case LineFeed(_, _) => STRING_UNESCAPED
    case NoQuote(_, _) => END_OF_BUFFER
    case BadEscape(_, bad, _) => EscapeCode(bad)
  }

  // ---------------------------------------------------------------------
  // Numbers and literals
  // ---------------------------------------------------------------------

  /** A run of number characters that is no number the library can hold. */
  datatype NumberFlaw =
    | IntFlaw(sign: Text, digits: Text, tail: Text)
    | FloatFlaw(run: Text)

  function NumberFlawText(flaw: NumberFlaw): Text {
    match flaw
    case IntFlaw(sign, digits, tail) => sign + digits + tail
    case FloatFlaw(run) => run
  }

  predicate IsDigits(t: Text) {
    forall k :: 0 <= k < |t| ==> IsDigit(t[k])
  }

  /** All digits behind the sign, and what follows them. */
  predicate IntRun(sign: Text, digits: Text, tail: Text) {
    && (sign == [] || sign == [PLUS] || sign == [MINUS]) && IsDigits(digits)
    && (forall k :: 0 <= k < |tail| ==> IsIntChar(tail[k])) && (tail != [] ==> !IsDigit(tail[0]))
    && sign + digits + tail != [] && (sign == [] ==> digits != [])
  }

  function Signed(sign: Text, digits: Text): int
    requires IsDigits(digits)
  {
    var n: int := DigitsValue(digits);
    if sign == [MINUS] then -n else n
  }

  predicate Fits64(n: int) {
    -9223372036854775808 <= n <= 9223372036854775807
  }

  /** A value out of range is the first reason, and characters left over the second. */
  function IntCode(sign: Text, digits: Text, tail: Text): int
    requires IsDigits(digits)
  {
    if digits != [] && !Fits64(Signed(sign, digits)) then NUMBER_OVERFLOW
    else if digits == [] || tail != [] then NUMBER_INVALID
    else JSON_OK
  }

  function FloatCode(run: Text, strtod: Strtod): int {
    if strtod(run).range then NUMBER_OVERFLOW
    else if strtod(run).consumed != |run| then NUMBER_INVALID
    else JSON_OK
  }

  predicate NumberFlawOk(flaw: NumberFlaw, strtod: Strtod) {
    match flaw
    case IntFlaw(sign, digits, tail) => IntRun(sign, digits, tail) && IntCode(sign, digits, tail) != JSON_OK
    case FloatFlaw(run) => NumberRun(run) && HasFloatChar(run) && FloatCode(run, strtod) != JSON_OK
  }

  function NumberFlawCode(flaw: NumberFlaw, strtod: Strtod): int
    requires NumberFlawOk(flaw, strtod)
  {
    match flaw
    case IntFlaw(sign, digits, tail) => IntCode(sign, digits, tail)
    case FloatFlaw(run) => FloatCode(run, strtod)
  }

  predicate IsLiteralText(lit: Text) {
    lit == TRUE_TEXT || lit == FALSE_TEXT || lit == NULL_TEXT
  }

  /**
    What a text that starts with a literal's letter is refused with, on a buffer
    of `size` bytes. A literal must not end with the buffer, and on a buffer shorter
    than itself the test for that is void.
  */
  function LiteralCode(lit: Text, rest: Text, size: nat): int {
    if size >= |lit| && |rest| <= |lit| then END_OF_BUFFER
    else if |rest| >= |lit| && rest[..|lit|] == lit then JSON_OK
    else LITERAL_INVALID
  }

  // ---------------------------------------------------------------------
  // Values
  // ---------------------------------------------------------------------

  /** A text that is refused; the last part of each is the rest of the buffer. */
  datatype Flawed =
    | NoValue(rest: Text)
    | InNumber(number: NumberFlaw, rest: Text)
    | InLiteral(lit: Text, rest: Text)
    | InString(str: StringFlaw)
    | InGroup(isArray: bool, items: seq<Item>, before: Text, flaw: GroupFlaw)

  /** What is wrong behind some items with their commas, and white space. */
  datatype GroupFlaw =
    | NoItem
    | Unnamed(rest: Text)
    | InName(str: StringFlaw)
    | NoColon(chars: seq<Ch>, gap: Text, rest: Text)
    | InValue(name: Option<Name>, value: Flawed)
    | NoDelimiter(name: Option<Name>, doc: Doc, after: Text, rest: Text)

  function ItemsBefore(items: seq<Item>): Text {
    if items == [] then [] else ItemText(items[0]) + ([COMMA] + ItemsBefore(items[1..]))
  }

  function FlawedText(f: Flawed): Text
    decreases f
  {
    match f
    case NoValue(rest) => rest
    case InNumber(number, rest) => NumberFlawText(number) + rest
    case InLiteral(_, rest) => rest
    case InString(str) => [QUOTE] + StringFlawText(str)
    case InGroup(isArray, items, before, flaw) =>
      [OpenChar(isArray)] + (ItemsBefore(items) + (before + GroupFlawText(flaw)))
  }

  function GroupFlawText(flaw: GroupFlaw): Text
    decreases flaw
  {
    match flaw
    case NoItem => []
    case Unnamed(rest) => rest
    case InName(str) => [QUOTE] + StringFlawText(str)
    case NoColon(chars, gap, rest) => QuoteText(chars) + (gap + rest)
    case InValue(name, value) => NameText(name) + FlawedText(value)
    case NoDelimiter(name, doc, after, rest) => NameText(name) + (DocText(doc) + (after + rest))
  }

  predicate ValueHead(c: Byte) {
    IsIntChar(c) || c as char in {'"', '{', '[', 't', 'f', 'n'}
  }

  /** The rest of the buffer is empty, or does not start with white space or one of these. */
  predicate Other(rest: Text, expected: set<Byte>) {
    rest != [] ==> !IsSpace(rest[0]) && rest[0] !in expected
  }

  ghost predicate FlawedOk(f: Flawed, strtod: Strtod, size: nat)
    decreases f
  {
    match f
    case NoValue(rest) => rest != [] ==> !IsSpace(rest[0]) && !ValueHead(rest[0])
    case InNumber(number, rest) => NumberFlawOk(number, strtod) && Stops(rest)
    case InLiteral(lit, rest) =>
      IsLiteralText(lit) && rest != [] && rest[0] == lit[0] && LiteralCode(lit, rest, size) != JSON_OK
    case InString(str) => StringFlawOk(str)
    case InGroup(isArray, items, before, flaw) =>
      ItemsOk(isArray, items, strtod) && Blank(before) && GroupFlawOk(isArray, flaw, strtod, size)
  }

  ghost predicate GroupFlawOk(isArray: bool, flaw: GroupFlaw, strtod: Strtod, size: nat)
    decreases flaw
  {
    match flaw
    case NoItem => true
    case Unnamed(rest) => !isArray && rest != [] && Other(rest, {QUOTE, CLOSE_OBJ})
    case InName(str) => !isArray && StringFlawOk(str)
    case NoColon(chars, gap, rest) => !isArray && CharsOk(chars) && Blank(gap) && Other(rest, {COLON})
    case InValue(name, value) =>
      && NameOk(name, isArray) && FlawedOk(value, strtod, size)
      && (isArray ==> FlawedText(value) != [] && FlawedText(value)[0] != CLOSE_ARR)
    case NoDelimiter(name, doc, after, rest) =>
      && NameOk(name, isArray) && DocOk(doc, strtod) && Blank(after) && Other(rest, {COMMA, EndChar(isArray)})
      && (doc.Num? ==> Stops(after + rest)) && (doc.Lit? ==> after + rest != [])
  }

  /** The code of the first flaw: that of what is missing, or of the end of the buffer in its place. */
  function MissingCode(rest: Text, code: int): int {
    if rest == [] then END_OF_BUFFER else code
  }

  ghost function FlawedCode(f: Flawed, strtod: Strtod, size: nat): int
    requires FlawedOk(f, strtod, size)
    decreases f
  {
    match f
    case NoValue(rest) => MissingCode(rest, VALUE_INVALID)
    case InNumber(number, _) => NumberFlawCode(number, strtod)
    case InLiteral(lit, rest) => LiteralCode(lit, rest, size)
    case InString(str) => StringFlawCode(str)
    case InGroup(isArray, _, _, flaw) => GroupFlawCode(isArray, flaw, strtod, size)
  }

  ghost function GroupFlawCode(isArray: bool, flaw: GroupFlaw, strtod: Strtod, size: nat): int
    requires GroupFlawOk(isArray, flaw, strtod, size)
    decreases flaw
  {
    match flaw
    case NoItem => END_OF_BUFFER
    case Unnamed(rest) => OBJECT_INVALID
    case InName(str) => StringFlawCode(str)
    case NoColon(_, _, rest) => MissingCode(rest, OBJECT_INVALID)
    case InValue(_, value) => FlawedCode(value, strtod, size)
    case NoDelimiter(_, _, _, rest) => MissingCode(rest, OBJECT_INVALID)
  }
}
