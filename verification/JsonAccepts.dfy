/**
  The parser accepts exactly the texts of documents, with their values: every
  document parses to its value, and whatever parses is the text of a document.
*/
module JsonAccepts {
  import opened Common
  import opened JsonSyntax
  import opened JsonParser
  import opened JsonGrammar

  // ---------------------------------------------------------------------
  // Texts inside a buffer
  // ---------------------------------------------------------------------

  /** The text `t` lies at position `i` of a buffer, before its terminator. */
  predicate At(b: Text, i: nat, t: Text)
    ensures At(b, i, t) ==> IsBuffer(b) && i + |t| <= Size(b)
  {
    IsBuffer(b) && i + |t| <= Size(b) && b[i..i + |t|] == t
  }

  lemma AtSplit(b: Text, i: nat, s: Text, t: Text)
    requires At(b, i, s + t)
    ensures At(b, i, s) && At(b, i + |s|, t)
  {
    var whole := b[i..i + |s + t|];
    assert whole[..|s|] == s && whole[|s|..] == t;
  }

  lemma AtHead(b: Text, i: nat, t: Text)
    requires At(b, i, t) && t != []
    ensures b[i] == t[0] && i < Size(b)
  {
    assert b[i] == b[i..i + |t|][0];
  }

  lemma AtIndex(b: Text, i: nat, t: Text, k: nat)
    requires At(b, i, t) && k < |t|
    ensures b[i + k] == t[k] && i + k < Size(b)
  {
    assert b[i + k] == b[i..i + |t|][k];
  }

  /** White space from `i` to `j`, and something else at `j`. */
  predicate Gap(b: Text, i: nat, j: nat) {
    && IsBuffer(b) && i <= j < Size(b)
    && (forall k :: i <= k < j ==> IsSpace(b[k]))
    && !IsSpace(b[j])
  }

  lemma GapSkip(b: Text, i: nat, j: nat)
    requires Gap(b, i, j)
    ensures SkipSpace(b, i) == j
  {
  }

  lemma BlankGap(b: Text, i: nat, t: Text)
    requires At(b, i, t) && Blank(t) && i + |t| < Size(b) && !IsSpace(b[i + |t|])
    ensures Gap(b, i, i + |t|) && SkipSpace(b, i) == i + |t|
  {
    hide At;
    forall k | i <= k < i + |t|
      ensures IsSpace(b[k])
    {
      AtIndex(b, i, t, k - i);
    }
  }

  // ---------------------------------------------------------------------
  // Strings
  // ---------------------------------------------------------------------

  /** Scanning over characters that are neither quotes nor escapes. */
  lemma {:induction false} ScanOver(b: Text, p: nat, q: nat, end: nat, escaped: bool)
    requires IsBuffer(b) && p <= q <= end <= Size(b) && Paired(b, q, end)
    requires forall k :: p <= k < q ==> b[k] != QUOTE && b[k] != LF && b[k] != BACKSLASH
    ensures FindQuote(b, p, escaped) == FindQuote(b, q, escaped) && Paired(b, p, end)
    decreases q - p
  {
    if p < q {
      ScanOver(b, p + 1, q, end, escaped);
    }
  }

  lemma HexIsPlain(hex: Text)
    requires |hex| == 4 && UnicodeAt(hex, 0, 4) >= 0
    ensures forall k :: 0 <= k < 4 ==> hex[k] != QUOTE && hex[k] != LF && hex[k] != BACKSLASH
  {
  }

  lemma UnicodeHere(b: Text, p: nat, end: nat, hex: Text)
    requires At(b, p, hex) && |hex| == 4 && p + 4 <= end <= |b|
    ensures UnicodeAt(b, p, end) == UnicodeAt(hex, 0, 4)
  {
    hide At, HexPair;
    AtIndex(b, p, hex, 0);
    AtIndex(b, p, hex, 1);
    AtIndex(b, p, hex, 2);
    AtIndex(b, p, hex, 3);
  }

  predicate HasEscape(chars: seq<Ch>) {
    exists k :: 0 <= k < |chars| && !chars[k].Raw?
  }

  /** Scanning and decoding at the closing quote. */
  lemma ScanQuote(b: Text, i: nat, escaped: bool)
    requires At(b, i, [QUOTE])
    ensures FindQuote(b, i, escaped) == Ok(escaped, i) && Paired(b, i, i) && Unescape(b, i, i) == Unescaped.Text([])
  {
    AtHead(b, i, [QUOTE]);
  }

  /** Scanning and decoding over one character. */
  lemma ScanCh(b: Text, i: nat, ch: Ch, end: nat, escaped: bool)
    requires ChOk(ch) && At(b, i, ChText(ch)) && i + |ChText(ch)| <= end <= Size(b)
    requires Paired(b, i + |ChText(ch)|, end) && Unescape(b, i + |ChText(ch)|, end).Text?
    ensures FindQuote(b, i, escaped) == FindQuote(b, i + |ChText(ch)|, escaped || !ch.Raw?)
    ensures Paired(b, i, end)
    ensures Unescape(b, i, end) == Unescaped.Text(ChValue(ch) + Unescape(b, i + |ChText(ch)|, end).text)
  {
    hide SimpleEscape, Utf8, UnicodeAt, At;
    AtHead(b, i, ChText(ch));
    match ch
    case Raw(c) =>
    case Esc(letter) =>
      AtIndex(b, i, ChText(ch), 1);
      NotUnicode(letter);
    case Uni(hex) =>
      AtIndex(b, i, ChText(ch), 1);
      ScanUnicode(b, i, hex, end, escaped);
  }

  lemma NotUnicode(letter: Byte)
    requires SimpleEscape(letter).Some?
    ensures letter != 117
  {
  }

  lemma ScanUnicode(b: Text, i: nat, hex: Text, end: nat, escaped: bool)
    requires |hex| == 4 && UnicodeAt(hex, 0, 4) >= 0 && At(b, i, [BACKSLASH, 117] + hex) && i + 6 <= end <= Size(b)
    requires Paired(b, i + 6, end) && Unescape(b, i + 6, end).Text?
    ensures b[i] == BACKSLASH && b[i + 1] == 117
    ensures FindQuote(b, i, escaped) == FindQuote(b, i + 6, true)
    ensures Paired(b, i, end)
    ensures Unescape(b, i, end) == Unescaped.Text(Utf8(UnicodeAt(hex, 0, 4)) + Unescape(b, i + 6, end).text)
  {
    hide Utf8, UnicodeAt, At;
    var t := [BACKSLASH, 117] + hex;
    AtIndex(b, i, t, 0);
    AtIndex(b, i, t, 1);
    AtSplit(b, i, [BACKSLASH, 117], hex);
    HexIsPlain(hex);
    forall k | i + 2 <= k < i + 6
      ensures b[k] != QUOTE && b[k] != LF && b[k] != BACKSLASH
    {
      AtIndex(b, i + 2, hex, k - (i + 2));
    }
    ScanOver(b, i + 2, i + 6, end, true);
    UnicodeHere(b, i + 2, end, hex);
  }

  lemma {:induction false} ScanChars(b: Text, i: nat, chars: seq<Ch>, escaped: bool)
    requires CharsOk(chars) && At(b, i, CharsText(chars) + [QUOTE])
    ensures FindQuote(b, i, escaped) == Ok(escaped || HasEscape(chars), i + |CharsText(chars)|)
    ensures Paired(b, i, i + |CharsText(chars)|)
    ensures Unescape(b, i, i + |CharsText(chars)|) == Unescaped.Text(CharsValue(chars))
    decreases |chars|
  {
    hide FindQuote, Paired, Unescape, ChText, ChValue, ChOk, At, HasEscape;
    if chars == [] {
      assert CharsText(chars) + [QUOTE] == [QUOTE];
      ScanQuote(b, i, escaped);
      NoEscape();
    } else {
      var ch, rest := chars[0], chars[1..];
      assert CharsText(chars) + [QUOTE] == ChText(ch) + (CharsText(rest) + [QUOTE]);
      AtSplit(b, i, ChText(ch), CharsText(rest) + [QUOTE]);
      ScanChars(b, i + |ChText(ch)|, rest, escaped || !ch.Raw?);
      ScanCh(b, i, ch, i + |CharsText(chars)|, escaped);
      EscapeFirst(chars);
    }
  }

  lemma NoEscape()
    ensures !HasEscape([])
  {
  }

  lemma EscapeFirst(chars: seq<Ch>)
    requires chars != []
    ensures HasEscape(chars) <==> !chars[0].Raw? || HasEscape(chars[1..])
  {
    if HasEscape(chars) && chars[0].Raw? {
      var k :| 0 <= k < |chars| && !chars[k].Raw?;
      assert chars[1..][k - 1] == chars[k];
    }
    if HasEscape(chars[1..]) {
      var k :| 0 <= k < |chars[1..]| && !chars[1..][k].Raw?;
      assert chars[k + 1] == chars[1..][k];
    }
  }

  lemma {:induction false} RawValue(chars: seq<Ch>)
    requires CharsOk(chars) && !HasEscape(chars)
    ensures CharsValue(chars) == CharsText(chars)
    decreases |chars|
  {
    hide HasEscape, ChOk;
    if chars != [] {
      EscapeFirst(chars);
      RawValue(chars[1..]);
    }
  }

  lemma QuoteParses(b: Text, i: nat, chars: seq<Ch>)
    requires CharsOk(chars) && At(b, i, QuoteText(chars))
    ensures i < Size(b) && b[i] == QUOTE
    ensures PString(b, i) == Ok(CStr(CharsValue(chars)), i + |QuoteText(chars)|)
  {
    hide CharsText, CharsValue, CharsOk, Unescape, FindQuote, CStr, HasEscape, At;
    var t := CharsText(chars);
    AtSplit(b, i, [QUOTE], t + [QUOTE]);
    AtHead(b, i, [QUOTE]);
    ScanChars(b, i + 1, chars, false);
    if !HasEscape(chars) {
      RawValue(chars);
      AtSplit(b, i + 1, t, [QUOTE]);
      AtText(b, i + 1, t);
    }
  }

  lemma AtText(b: Text, i: nat, t: Text)
    requires At(b, i, t)
    ensures b[i..i + |t|] == t
  {
  }

  // ---------------------------------------------------------------------
  // Numbers and literals
  // ---------------------------------------------------------------------

  /** The integer conversion looks at the digits only. */
  lemma StrToLLLocal(text: Text, rest: Text)
    requires text != [] && StrToLL(text).consumed == |text| && (rest == [] || !IsDigit(rest[0]))
    ensures StrToLL(text + rest) == StrToLL(text)
  {
    hide DigitsValue;
    var s := text + rest;
    assert s[0] == text[0];
    var start := if text[0] == PLUS || text[0] == MINUS then 1 else 0;
    assert DigitRun(text, start) == |text|;
    var stop := DigitRun(s, start);
    forall k | start <= k < |text|
      ensures IsDigit(s[k])
    {
      assert s[k] == text[k];
    }
    assert |s| > |text| ==> s[|text|] == rest[0];
    assert stop == |text|;
    assert s[start..stop] == text[start..];
    assert text[start..|text|] == text[start..];
  }

  lemma NumberParses(b: Text, i: nat, text: Text, strtod: Strtod)
    requires NumOk(text, strtod) && At(b, i, text) && !IsNumberChar(b[i + |text|])
    ensures i < Size(b) && IsIntChar(b[i])
    ensures PNumber(b, i, strtod) == Ok(NumValue(text, strtod), i + |text|)
  {
    hide StrToLL, At, HasFloatChar;
    AtHead(b, i, text);
    var j := NumberEnd(b, i);
    forall k | i <= k < i + |text|
      ensures IsNumberChar(b[k])
    {
      AtIndex(b, i, text, k - i);
    }
    assert j == i + |text|;
    AtText(b, i, text);
    var rest := b[j..];
    assert b[i..] == text + rest && rest[0] == b[j];
    if HasFloatChar(text) {
      assert Scan(strtod, text + rest) == Scan(strtod, text);
    } else {
      StrToLLLocal(text, rest);
    }
  }

  lemma {:induction false} MatchesAt(b: Text, i: nat, lit: Text)
    requires At(b, i, lit)
    ensures Matches(b, i, lit)
    decreases lit
  {
    hide At;
    if lit != [] {
      AtHead(b, i, lit);
      assert lit == [lit[0]] + lit[1..];
      AtSplit(b, i, [lit[0]], lit[1..]);
      MatchesAt(b, i + 1, lit[1..]);
    }
  }

  lemma LiteralParses(b: Text, i: nat, lit: Text)
    requires At(b, i, lit) && Size(b) < SIZE_MODULUS && 0 < |lit| <= 5 && 0 !in lit
    ensures i < Size(b) && b[i] == lit[0]
    ensures PLiteral(b, i, lit) == if i + |lit| < Size(b) then Ok((), i + |lit|) else Err(END_OF_BUFFER)
  {
    hide Matches, At;
    AtHead(b, i, lit);
    MatchesAt(b, i, lit);
    assert (Size(b) - |lit|) % SIZE_MODULUS == Size(b) - |lit|;
  }

  // ---------------------------------------------------------------------
  // Every document parses to its value
  // ---------------------------------------------------------------------

  lemma DocHead(doc: Doc, strtod: Strtod)
    requires DocOk(doc, strtod)
    ensures var t := DocText(doc);
            t != [] && !IsSpace(t[0]) && t[0] != CLOSE_ARR && t[0] != CLOSE_OBJ
  {
    hide CharsText, ItemsText, StrToLL, HasFloatChar, CharsOk, CloseOk, ItemsOk;
  }

  /** The text of a document parses to its value; a literal that ends with the buffer is refused. */
  lemma {:induction false} DocParses(b: Text, i: nat, doc: Doc, strtod: Strtod)
    requires DocOk(doc, strtod) && At(b, i, DocText(doc)) && Size(b) < SIZE_MODULUS
    requires doc.Num? ==> !IsNumberChar(b[i + |DocText(doc)|])
    ensures PValue(b, i, strtod) ==
              if Delimited(b, i + |DocText(doc)|, doc) then Ok(DocValue(doc, strtod), i + |DocText(doc)|)
              else Err(END_OF_BUFFER)
    decreases doc, 2
  {
    hide PString, PNumber, PContainer, SkipSpace, PLiteral, QuoteText, ItemsText, At, NumOk, CharsOk, CloseOk,
         ItemsOk, CharsValue, NumValue, ItemsValue, CStr;
    var t := DocText(doc);
    DocHead(doc, strtod);
    AtHead(b, i, t);
    GapSkip(b, i, i);
    match doc
    case Lit(v) => LiteralParses(b, i, t);
    case Num(text) => NumberParses(b, i, text, strtod);
    case Quote(chars) => QuoteParses(b, i, chars);
    case Group(isArray, items, trailing, close) => GroupParses(b, i, isArray, items, trailing, close, strtod);
  }

  lemma {:induction false} GroupParses(
      b: Text, i: nat, isArray: bool, items: seq<Item>, trailing: bool, close: Text, strtod: Strtod)
    requires ItemsOk(isArray, items, strtod) && CloseOk(items, trailing, close)
    requires At(b, i, [OpenChar(isArray)] + ItemsText(isArray, items, trailing, close)) && Size(b) < SIZE_MODULUS
    ensures i < Size(b) && b[i] == OpenChar(isArray)
    ensures PContainer(b, i, isArray, strtod)
            == Ok(Cont(isArray, ItemsValue(isArray, items, strtod)),
                  i + 1 + |ItemsText(isArray, items, trailing, close)|)
    decreases items, 1
  {
    hide PKids, SkipSpace, ItemsText, At, ItemsOk, ItemsValue;
    AtSplit(b, i, [OpenChar(isArray)], ItemsText(isArray, items, trailing, close));
    AtHead(b, i, [OpenChar(isArray)]);
    ItemsParse(b, i + 1, isArray, items, trailing, close, strtod);
  }

  /** After white space, a list of these children ends at `end`. */
  ghost predicate KidsAt(b: Text, i: nat, isArray: bool, kids: seq<Node<Text>>, end: nat, strtod: Strtod) {
    && IsBuffer(b) && i <= Size(b) < SIZE_MODULUS
    && var j := SkipSpace(b, i);
    j < Size(b) && PKids(b, j, isArray, strtod) == Ok(kids, end)
  }

  /** The items of a group and its closing bracket, with the white space before them. */
  lemma {:induction false} ItemsParse(
      b: Text, i: nat, isArray: bool, items: seq<Item>, trailing: bool, close: Text, strtod: Strtod)
    requires ItemsOk(isArray, items, strtod) && Blank(close)
    requires At(b, i, ItemsText(isArray, items, trailing, close)) && Size(b) < SIZE_MODULUS
    ensures KidsAt(b, i, isArray, ItemsValue(isArray, items, strtod),
                   i + |ItemsText(isArray, items, trailing, close)|, strtod)
    decreases items, 0
  {
    hide KidsAt, ItemsText, ItemText, Blank, At, ItemOk, ItemsOk, NameOk, DocOk, DocValue, NameValue, ItemsValue,
         EndChar, IsBuffer;
    if items == [] {
      NoItems(isArray, close, strtod);
      EmptyList(b, i, isArray, close, strtod);
    } else {
      var item, rest := items[0], items[1..];
      FirstItem(isArray, items, trailing, close, strtod);
      if |items| == 1 && !trailing {
        LastItem(b, i, isArray, item, strtod);
        NoItems(isArray, close, strtod);
        assert rest == [];
      } else {
        var more := ItemsText(isArray, rest, trailing, close);
        var next := i + |ItemText(item)| + 1;
        AtAfterComma(b, i, ItemText(item), more);
        ItemsParse(b, next, isArray, rest, trailing, close, strtod);
        OneMoreItem(b, i, isArray, item, more, ItemsValue(isArray, rest, strtod), next + |more|, strtod);
      }
    }
  }

  lemma AtAfterComma(b: Text, i: nat, t: Text, more: Text)
    requires At(b, i, t + ([COMMA] + more))
    ensures At(b, i + |t| + 1, more) && |t + ([COMMA] + more)| == |t| + 1 + |more|
  {
    hide At;
    AtSplit(b, i, t, [COMMA] + more);
    AtSplit(b, i + |t|, [COMMA], more);
  }

  lemma EmptyList(b: Text, i: nat, isArray: bool, close: Text, strtod: Strtod)
    requires At(b, i, close + [EndChar(isArray)]) && Blank(close) && Size(b) < SIZE_MODULUS
    ensures KidsAt(b, i, isArray, [], i + |close| + 1, strtod)
  {
    hide PKids, SkipSpace, Blank, At;
    CloseParses(b, i, isArray, close);
    PKidsUnfold(b, SkipSpace(b, i), isArray, strtod);
  }

  /** The last item, without a comma. */
  lemma {:induction false} LastItem(b: Text, i: nat, isArray: bool, item: Item, strtod: Strtod)
    requires ItemOk(isArray, item, strtod) && NameOk(item.name, isArray) && DocOk(item.value, strtod)
    requires At(b, i, ItemText(item) + [EndChar(isArray)]) && Size(b) < SIZE_MODULUS
    ensures KidsAt(b, i, isArray, [Node(NameValue(item.name), DocValue(item.value, strtod))] + [],
                   i + |ItemText(item)| + 1, strtod)
    decreases item, 4
  {
    hide PChild, SkipSpace, PKids, ItemText, At, ItemOk, NameOk, DocOk, DocValue, NameValue;
    ItemParses(b, i, isArray, item, [EndChar(isArray)], strtod);
    PKidsLast(b, SkipSpace(b, i), isArray, strtod);
    var kid := Node(NameValue(item.name), DocValue(item.value, strtod));
    assert [kid] + [] == [kid];
  }

  /** An item and a comma, before a list that parses. */
  lemma {:induction false} OneMoreItem(
      b: Text, i: nat, isArray: bool, item: Item, more: Text, kids: seq<Node<Text>>, end: nat, strtod: Strtod)
    requires ItemOk(isArray, item, strtod) && NameOk(item.name, isArray) && DocOk(item.value, strtod)
    requires At(b, i, ItemText(item) + ([COMMA] + more)) && Size(b) < SIZE_MODULUS
    requires KidsAt(b, i + |ItemText(item)| + 1, isArray, kids, end, strtod)
    ensures KidsAt(b, i, isArray, [Node(NameValue(item.name), DocValue(item.value, strtod))] + kids, end, strtod)
    decreases item, 4
  {
    hide PChild, SkipSpace, PKids, ItemText, At, ItemOk, NameOk, DocOk, DocValue, NameValue;
    ItemParses(b, i, isArray, item, [COMMA] + more, strtod);
    PKidsMore(b, SkipSpace(b, i), isArray, kids, end, strtod);
  }

  lemma NoItems(isArray: bool, close: Text, strtod: Strtod)
    ensures ItemsOk(isArray, [], strtod) && ItemsValue(isArray, [], strtod) == []
    ensures forall trailing :: ItemsText(isArray, [], trailing, close) == close + [EndChar(isArray)]
  {
  }

  lemma FirstItem(isArray: bool, items: seq<Item>, trailing: bool, close: Text, strtod: Strtod)
    requires items != [] && ItemsOk(isArray, items, strtod)
    ensures ItemOk(isArray, items[0], strtod) && NameOk(items[0].name, isArray) && DocOk(items[0].value, strtod)
    ensures ItemsOk(isArray, items[1..], strtod)
    ensures ItemsValue(isArray, items, strtod)
            == [Node(NameValue(items[0].name), DocValue(items[0].value, strtod))]
               + ItemsValue(isArray, items[1..], strtod)
    ensures ItemsText(isArray, items, trailing, close) ==
              if |items| == 1 && !trailing then ItemText(items[0]) + [EndChar(isArray)]
              else ItemText(items[0]) + ([COMMA] + ItemsText(isArray, items[1..], trailing, close))
  {
    assert ItemOk(isArray, items[0], strtod);
  }

  lemma CloseParses(b: Text, i: nat, isArray: bool, close: Text)
    requires At(b, i, close + [EndChar(isArray)]) && Blank(close)
    ensures SkipSpace(b, i) == i + |close| < Size(b) && b[i + |close|] == EndChar(isArray)
  {
    hide At, SkipSpace;
    AtSplit(b, i, close, [EndChar(isArray)]);
    AtHead(b, i + |close|, [EndChar(isArray)]);
    BlankGap(b, i, close);
  }

  lemma PKidsLast(b: Text, j: nat, isArray: bool, strtod: Strtod)
    requires IsBuffer(b) && j < Size(b) < SIZE_MODULUS && b[j] != EndChar(isArray)
    requires var r := PChild(b, j, isArray, strtod); r.Ok? && b[r.next] == EndChar(isArray)
    ensures var r := PChild(b, j, isArray, strtod); PKids(b, j, isArray, strtod) == Ok([r.value], r.next + 1)
  {
    hide PChild, SkipSpace, PKids;
    PKidsUnfold(b, j, isArray, strtod);
  }

  lemma PKidsMore(b: Text, j: nat, isArray: bool, rest: seq<Node<Text>>, end: nat, strtod: Strtod)
    requires IsBuffer(b) && j < Size(b) < SIZE_MODULUS && b[j] != EndChar(isArray)
    requires var r := PChild(b, j, isArray, strtod);
             && r.Ok? && b[r.next] == COMMA
             && var n := SkipSpace(b, r.next + 1);
             n < Size(b) && PKids(b, n, isArray, strtod) == Ok(rest, end)
    ensures PKids(b, j, isArray, strtod) == Ok([PChild(b, j, isArray, strtod).value] + rest, end)
  {
    hide PChild, SkipSpace, PKids;
    PKidsUnfold(b, j, isArray, strtod);
  }

  predicate IsDelimiter(c: Byte, isArray: bool) {
    c == COMMA || c == EndChar(isArray)
  }

  /** One item, followed by a text that starts with its delimiter. */
  lemma {:induction false} ItemParses(b: Text, i: nat, isArray: bool, item: Item, more: Text, strtod: Strtod)
    requires ItemOk(isArray, item, strtod)
    requires At(b, i, ItemText(item) + more) && more != [] && IsDelimiter(more[0], isArray) && Size(b) < SIZE_MODULUS
    ensures var j := SkipSpace(b, i);
            && j < Size(b) && b[j] != EndChar(isArray)
            && PChild(b, j, isArray, strtod)
               == Ok(Node(NameValue(item.name), DocValue(item.value, strtod)), i + |ItemText(item)|)
            && b[i + |ItemText(item)|] == more[0]
    decreases item, 3
  {
    hide PName, PValue, PChild, SkipSpace, DocText, NameText, ItemText, At, Gap, Blank, DocOk, NameOk, DocValue,
         NameValue, IsSpace, IsNumberChar, IsDelimiter;
    var p, q, r := ItemLayout(b, i, item, more);
    DocHead(item.value, strtod);
    AtHead(b, q, DocText(item.value));
    NameParses(b, p, isArray, item.name, q);
    BlankGap(b, i, item.before);
    AfterValue(b, r, item.after, isArray);
    DocParses(b, q, item.value, strtod);
    PValueSkips(b, PName(b, p, isArray).next, q, strtod);
    PChildSteps(b, p, isArray, NameValue(item.name), DocValue(item.value, strtod), r, strtod);
  }

  /** Where the name, the value and what follows it lie. */
  lemma ItemLayout(b: Text, i: nat, item: Item, more: Text) returns (p: nat, q: nat, r: nat)
    requires At(b, i, ItemText(item) + more) && more != []
    ensures p == i + |item.before| && q == p + |NameText(item.name)| && r == q + |DocText(item.value)|
    ensures r + |item.after| == i + |ItemText(item)| < Size(b) && b[i + |ItemText(item)|] == more[0]
    ensures At(b, i, item.before) && At(b, p, NameText(item.name))
    ensures At(b, q, DocText(item.value)) && At(b, r, item.after)
  {
    hide DocText, NameText, At;
    AtSplit(b, i, ItemText(item), more);
    AtHead(b, i + |ItemText(item)|, more);
    AtSplit(b, i, item.before, NameText(item.name) + (DocText(item.value) + item.after));
    p := i + |item.before|;
    AtSplit(b, p, NameText(item.name), DocText(item.value) + item.after);
    q := p + |NameText(item.name)|;
    AtSplit(b, q, DocText(item.value), item.after);
    r := q + |DocText(item.value)|;
  }

  /** White space and a delimiter end every value. */
  lemma AfterValue(b: Text, r: nat, after: Text, isArray: bool)
    requires At(b, r, after) && Blank(after) && r + |after| < Size(b) && IsDelimiter(b[r + |after|], isArray)
    ensures SkipSpace(b, r) == r + |after| && !IsNumberChar(b[r])
  {
    hide At, SkipSpace;
    BlankGap(b, r, after);
    if after != [] {
      AtHead(b, r, after);
    }
  }

  lemma PValueSkips(b: Text, i: nat, j: nat, strtod: Strtod)
    requires Gap(b, i, j) && Size(b) < SIZE_MODULUS
    ensures PValue(b, i, strtod) == PValue(b, j, strtod)
  {
    hide PString, PNumber, PContainer, SkipSpace, PLiteral;
    GapSkip(b, i, j);
    GapSkip(b, j, j);
  }

  lemma PChildSteps(b: Text, i: nat, isArray: bool, name: Option<Text>, data: Data<Text>, r: nat, strtod: Strtod)
    requires IsBuffer(b) && i < Size(b) < SIZE_MODULUS && r <= Size(b) && SkipSpace(b, r) < Size(b)
    requires var n := PName(b, i, isArray); n.Ok? && n.value == name && PValue(b, n.next, strtod) == Ok(data, r)
    ensures PChild(b, i, isArray, strtod) == Ok(Node(name, data), SkipSpace(b, r))
  {
    hide PName, PValue, SkipSpace;
  }

  /** The name, its colon and the white space before the value. */
  lemma NameParses(b: Text, i: nat, isArray: bool, name: Option<Name>, end: nat)
    requires NameOk(name, isArray) && At(b, i, NameText(name)) && end == i + |NameText(name)|
    requires end < Size(b) && !IsSpace(b[end]) && b[end] != CLOSE_ARR && b[end] != CLOSE_OBJ
    ensures i < Size(b) && !IsSpace(b[i]) && b[i] != EndChar(isArray)
    ensures var r := PName(b, i, isArray);
            r.Ok? && r.value == NameValue(name) && Gap(b, r.next, end)
  {
    hide PName, QuoteText, At, Gap, IsSpace, CharsOk, CStr, CharsValue;
    match name
    case None => NoName(b, i);
    case Some(l) => QuotedNameParses(b, i, l, end);
  }

  /** An array element has no name. */
  lemma NoName(b: Text, i: nat)
    requires IsBuffer(b) && i < Size(b) && !IsSpace(b[i])
    ensures PName(b, i, true) == Ok(None, i) && Gap(b, i, i)
  {
  }

  lemma QuotedNameParses(b: Text, i: nat, name: Name, end: nat)
    requires CharsOk(name.chars) && Blank(name.before) && Blank(name.after)
    requires At(b, i, QuoteText(name.chars) + (name.before + [COLON] + name.after))
    requires end == i + |QuoteText(name.chars) + (name.before + [COLON] + name.after)|
    requires end < Size(b) && !IsSpace(b[end])
    ensures i < Size(b) && b[i] == QUOTE && !IsSpace(b[i])
    ensures var r := PName(b, i, false);
            r.Ok? && r.value == Some(CStr(CharsValue(name.chars))) && Gap(b, r.next, end)
  {
    hide PName, QuoteText, At, Gap, CharsOk, CStr, CharsValue, Blank, SkipSpace;
    var k := i + |QuoteText(name.chars)|;
    AtSplit(b, i, QuoteText(name.chars), name.before + [COLON] + name.after);
    QuoteParses(b, i, name.chars);
    ColonParses(b, k, name, end);
    PNameSteps(b, i, CStr(CharsValue(name.chars)), k);
  }

  lemma ColonParses(b: Text, k: nat, name: Name, end: nat)
    requires Blank(name.before) && Blank(name.after) && At(b, k, name.before + [COLON] + name.after)
    requires end == k + |name.before| + 1 + |name.after| && end < Size(b) && !IsSpace(b[end])
    ensures var c := k + |name.before|;
            SkipSpace(b, k) == c < Size(b) && b[c] == COLON && Gap(b, c + 1, end)
  {
    hide SkipSpace, At, Blank;
    AtSplit(b, k, name.before + [COLON], name.after);
    AtSplit(b, k, name.before, [COLON]);
    AtHead(b, k + |name.before|, [COLON]);
    BlankGap(b, k, name.before);
    BlankGap(b, k + |name.before| + 1, name.after);
  }

  lemma PNameSteps(b: Text, i: nat, s: Text, k: nat)
    requires IsBuffer(b) && i < Size(b) && b[i] == QUOTE && PString(b, i) == Ok(s, k)
    requires SkipSpace(b, k) < Size(b) && b[SkipSpace(b, k)] == COLON
    ensures PName(b, i, false) == Ok(Some(s), SkipSpace(b, k) + 1)
  {
    hide PString, SkipSpace;
  }
}
