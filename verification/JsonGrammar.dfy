/**
  JSON texts as documents: concrete syntax trees that keep white space, escapes
  and the spelling of numbers. A document has a text and a value. Which
  documents the parser accepts is stated here, and which of them follow RFC
  8259; that the parser does so is proved in `JsonAccepts`.
*/
module JsonGrammar {
  import opened Common
  import opened JsonSyntax
  import opened JsonParser

  /** A character of a string: as it is, after a backslash, or as four hexadecimal digits. */
  datatype Ch = Raw(c: Byte) | Esc(letter: Byte) | Uni(hex: Text)

  /** White space before the name's colon and after it. */
  datatype Name = Name(chars: seq<Ch>, before: Text, after: Text)

  datatype Doc =
    | Lit(v: Data<Text>)
    | Num(text: Text)
    | Quote(chars: seq<Ch>)
    | Group(isArray: bool, items: seq<Item>, trailing: bool, close: Text)

  /** A value with the white space around it, and a name in objects. */
  datatype Item = Item(before: Text, name: Option<Name>, value: Doc, after: Text)

  // ---------------------------------------------------------------------
  // Text
  // ---------------------------------------------------------------------

  function ChText(ch: Ch): (t: Text)
    ensures |t| > 0
  {
    match ch
    case Raw(c) => [c]
    case Esc(letter) => [BACKSLASH, letter]
    case Uni(hex) => [BACKSLASH, 117] + hex
  }

  function CharsText(chars: seq<Ch>): Text {
    if chars == [] then [] else ChText(chars[0]) + CharsText(chars[1..])
  }

  function QuoteText(chars: seq<Ch>): (t: Text)
    ensures |t| >= 2 && t[0] == QUOTE
  {
    [QUOTE] + (CharsText(chars) + [QUOTE])
  }

  function LitText(v: Data<Text>): Text {
    match v
    case Bool(b) => if b then TRUE_TEXT else FALSE_TEXT
    case _ => NULL_TEXT
  }

  function NameText(name: Option<Name>): Text {
    match name
    case None => []
    case Some(l) => QuoteText(l.chars) + (l.before + [COLON] + l.after)
  }

  function DocText(doc: Doc): Text
    decreases doc
  {
    match doc
    case Lit(v) => LitText(v)
    case Num(text) => text
    case Quote(chars) => QuoteText(chars)
    case Group(isArray, items, trailing, close) => [OpenChar(isArray)] + ItemsText(isArray, items, trailing, close)
  }

  /** Up to the closing bracket; a trailing comma, or nothing at all, is followed by `close`. */
  function ItemsText(isArray: bool, items: seq<Item>, trailing: bool, close: Text): Text
    decreases items
  {
    if items == [] then close + [EndChar(isArray)]
    else if |items| == 1 && !trailing then ItemText(items[0]) + [EndChar(isArray)]
    else ItemText(items[0]) + ([COMMA] + ItemsText(isArray, items[1..], trailing, close))
  }

  function ItemText(item: Item): Text
    decreases item
  {
    item.before + (NameText(item.name) + (DocText(item.value) + item.after))
  }

  // ---------------------------------------------------------------------
  // Value
  // ---------------------------------------------------------------------

  function ChValue(ch: Ch): Text
    requires ChOk(ch)
  {
    match ch
    case Raw(c) => [c]
    case Esc(letter) => [SimpleEscape(letter).value]
    case Uni(hex) => Utf8(UnicodeAt(hex, 0, 4))
  }

  function CharsValue(chars: seq<Ch>): Text
    requires CharsOk(chars)
  {
    if chars == [] then [] else ChValue(chars[0]) + CharsValue(chars[1..])
  }

  function NumValue(text: Text, strtod: Strtod): Data<Text> {
    if HasFloatChar(text) then Float(strtod(text).value) else Int(StrToLL(text).value)
  }

  /** Strings are C strings: they end at a NUL. */
  function NameValue(name: Option<Name>): Option<Text>
    requires name.Some? ==> CharsOk(name.value.chars)
  {
    match name
    case None => None
    case Some(l) => Some(CStr(CharsValue(l.chars)))
  }

  ghost function DocValue(doc: Doc, strtod: Strtod): Data<Text>
    requires DocOk(doc, strtod)
    decreases doc, 1
  {
    match doc
    case Lit(v) => v
    case Num(text) => NumValue(text, strtod)
    case Quote(chars) => Str(CStr(CharsValue(chars)))
    case Group(isArray, items, _, _) => Cont(isArray, ItemsValue(isArray, items, strtod))
  }

  ghost function ItemsValue(isArray: bool, items: seq<Item>, strtod: Strtod): (kids: seq<Node<Text>>)
    requires ItemsOk(isArray, items, strtod)
    decreases items
  {
    if items == [] then [] else
    assert ItemOk(isArray, items[0], strtod);
    [Node(NameValue(items[0].name), DocValue(items[0].value, strtod))] + ItemsValue(isArray, items[1..], strtod)
  }

  // ---------------------------------------------------------------------
  // Documents the parser accepts
  // ---------------------------------------------------------------------

  predicate Blank(t: Text) {
    forall k :: 0 <= k < |t| ==> IsSpace(t[k])
  }

  predicate ChOk(ch: Ch) {
    match ch
    case Raw(c) => c != QUOTE && c != BACKSLASH && c != LF
    case Esc(letter) => SimpleEscape(letter).Some?
    case Uni(hex) => |hex| == 4 && UnicodeAt(hex, 0, 4) >= 0
  }

  predicate CharsOk(chars: seq<Ch>) {
    forall k :: 0 <= k < |chars| ==> ChOk(chars[k])
  }

  predicate IsNumberChar(c: Byte) {
    IsIntChar(c) || IsFloatChar(c)
  }

  predicate NumberRun(text: Text) {
    text != [] && IsIntChar(text[0]) && forall k :: 0 <= k < |text| ==> IsNumberChar(text[k])
  }

  /** The C library takes the whole spelling, and the number is in range. */
  ghost predicate NumOk(text: Text, strtod: Strtod) {
    && NumberRun(text)
    && if HasFloatChar(text) then strtod(text).consumed == |text| && !strtod(text).range && LocalAt(strtod, text)
       else StrToLL(text).consumed == |text| && !StrToLL(text).range
  }

  predicate NameOk(name: Option<Name>, isArray: bool)
    ensures NameOk(name, isArray) && name.Some? ==> CharsOk(name.value.chars)
  {
    match name
    case None => isArray
    case Some(l) => !isArray && CharsOk(l.chars) && Blank(l.before) && Blank(l.after)
  }

  /** Nothing stands where `close` would, unless there is a trailing comma or no item. */
  predicate CloseOk(items: seq<Item>, trailing: bool, close: Text) {
    Blank(close) && (items == [] ==> !trailing) && (items != [] && !trailing ==> close == [])
  }

  ghost predicate DocOk(doc: Doc, strtod: Strtod)
    decreases doc, 1
  {
    match doc
    case Lit(v) => v.Null? || v.Bool?
    case Num(text) => NumOk(text, strtod)
    case Quote(chars) => CharsOk(chars)
    case Group(isArray, items, trailing, close) => CloseOk(items, trailing, close) && ItemsOk(isArray, items, strtod)
  }

  ghost predicate ItemsOk(isArray: bool, items: seq<Item>, strtod: Strtod)
    decreases items
  {
    items == [] || (ItemOk(isArray, items[0], strtod) && ItemsOk(isArray, items[1..], strtod))
  }

  ghost predicate ItemOk(isArray: bool, item: Item, strtod: Strtod)
    decreases item
  {
    Blank(item.before) && NameOk(item.name, isArray) && DocOk(item.value, strtod) && Blank(item.after)
  }

  /** What ends a document: a number by another character, a literal by one more byte of the buffer. */
  predicate Delimited(b: Text, n: nat, doc: Doc)
    requires IsBuffer(b) && n <= Size(b)
  {
    (doc.Num? ==> !IsNumberChar(b[n])) && (doc.Lit? ==> n < Size(b))
  }

  function Scan(strtod: Strtod, t: Text): FloatScan {
    strtod(t)
  }

  /** What may follow a number. */
  predicate Stops(r: Text) {
    r == [] || !IsNumberChar(r[0])
  }

  /** The conversion of the C library does not look behind the characters of this number. */
  ghost predicate LocalAt(strtod: Strtod, text: Text) {
    forall rest :: rest == [] || !IsNumberChar(rest[0]) ==> Scan(strtod, text + rest) == Scan(strtod, text)
  }

  /** Only numbers with a point or an exponent are given to it. */
  ghost predicate Local(strtod: Strtod) {
    forall text :: NumberRun(text) && HasFloatChar(text) ==> LocalAt(strtod, text)
  }
}
