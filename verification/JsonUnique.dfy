/**
  A text is the text of at most one document, so that what holds of a document
  holds of its text: in particular, whether it follows RFC 8259.
*/
module JsonUnique {
  import opened Common
  import opened JsonSyntax
  import opened JsonParser
  import opened JsonGrammar
  import opened JsonSound
  import opened JsonRfc

  // ---------------------------------------------------------------------
  // Documents that a text can be read as
  // ---------------------------------------------------------------------

  /** The characters tell their own length. */
  predicate SynChar(ch: Ch) {
    match ch
    case Raw(c) => c != QUOTE && c != BACKSLASH
    case Esc(letter) => letter != 117
    case Uni(hex) => |hex| == 4
  }

  predicate SynChars(chars: seq<Ch>) {
    forall k :: 0 <= k < |chars| ==> SynChar(chars[k])
  }

  predicate SynName(name: Option<Name>, isArray: bool) {
    match name
    case None => isArray
    case Some(l) => !isArray && SynChars(l.chars) && Blank(l.before) && Blank(l.after)
  }

  predicate SynDoc(doc: Doc)
    decreases doc, 1
  {
    match doc
    case Lit(v) => v.Null? || v.Bool?
    case Num(text) => NumberRun(text)
    case Quote(chars) => SynChars(chars)
    case Group(isArray, items, trailing, close) => CloseOk(items, trailing, close) && SynItems(isArray, items)
  }

  predicate SynItems(isArray: bool, items: seq<Item>)
    decreases items
  {
    items == [] || (SynItem(isArray, items[0]) && SynItems(isArray, items[1..]))
  }

  predicate SynItem(isArray: bool, item: Item)
    decreases item
  {
    Blank(item.before) && SynName(item.name, isArray) && SynDoc(item.value) && Blank(item.after)
  }

  // ---------------------------------------------------------------------
  // Where parts end
  // ---------------------------------------------------------------------

  lemma SameLength(a: Text, x: Text, b: Text, y: Text)
    requires a + x == b + y && |a| == |b|
    ensures a == b && x == y
  {
    assert a == (a + x)[..|a|] && x == (a + x)[|a|..];
    assert b == (b + y)[..|b|] && y == (b + y)[|b|..];
  }

  /** Two texts that go on alike have the same first character. */
  lemma SameHead(a: Text, x: Text, b: Text, y: Text)
    requires a + x == b + y && a != [] && b != []
    ensures a[0] == b[0]
  {
    assert (a + x)[0] == a[0] && (b + y)[0] == b[0];
  }

  predicate Solid(x: Text) {
    x != [] && !IsSpace(x[0])
  }

  lemma BlankNotLonger(a: Text, x: Text, b: Text, y: Text)
    requires a + x == b + y && Blank(b) && Solid(x)
    ensures |a| >= |b|
  {
    assert (a + x)[|a|] == x[0];
    assert forall k :: 0 <= k < |b| ==> (b + y)[k] == b[k];
  }

  lemma BlankUnique(a: Text, x: Text, b: Text, y: Text)
    requires a + x == b + y && Blank(a) && Blank(b) && Solid(x) && Solid(y)
    ensures a == b && x == y
  {
    BlankNotLonger(a, x, b, y);
    BlankNotLonger(b, y, a, x);
    SameLength(a, x, b, y);
  }

  lemma RunNotLonger(a: Text, x: Text, b: Text, y: Text)
    requires a + x == b + y && NumberRun(b) && Stops(x)
    ensures |a| >= |b|
  {
    assert x != [] ==> (a + x)[|a|] == x[0];
    assert forall k :: 0 <= k < |b| ==> (b + y)[k] == b[k];
    assert |a| + |x| == |b| + |y|;
  }

  lemma RunUnique(a: Text, x: Text, b: Text, y: Text)
    requires a + x == b + y && NumberRun(a) && NumberRun(b) && Stops(x) && Stops(y)
    ensures a == b && x == y
  {
    RunNotLonger(a, x, b, y);
    RunNotLonger(b, y, a, x);
    SameLength(a, x, b, y);
  }

  // ---------------------------------------------------------------------
  // Strings
  // ---------------------------------------------------------------------

  lemma CharUnique(a: Ch, x: Text, b: Ch, y: Text)
    requires SynChar(a) && SynChar(b) && ChText(a) + x == ChText(b) + y
    ensures a == b && x == y
  {
    var s, t := ChText(a), ChText(b);
    SameHead(s, x, t, y);
    if !a.Raw? {
      assert (s + x)[1] == s[1] && (t + y)[1] == t[1];
    }
    assert |s| == |t|;
    SameLength(s, x, t, y);
    if a.Uni? {
      assert s[2..] == a.hex && t[2..] == b.hex;
    }
  }

  lemma CharNotQuote(a: Ch)
    requires SynChar(a)
    ensures ChText(a)[0] != QUOTE
  {
  }

  lemma {:induction false} CharsUnique(a: seq<Ch>, x: Text, b: seq<Ch>, y: Text)
    requires SynChars(a) && SynChars(b) && CharsText(a) + ([QUOTE] + x) == CharsText(b) + ([QUOTE] + y)
    ensures a == b && x == y
    decreases |a|
  {
    hide SynChar, ChText, CharsText;
    FirstOrQuote(a, x);
    FirstOrQuote(b, y);
    if a == [] && b == [] {
      SameLength([QUOTE], x, [QUOTE], y);
    } else if a == [] {
      CharNotQuote(b[0]);
      SameHead([QUOTE], x, ChText(b[0]), CharsText(b[1..]) + ([QUOTE] + y));
    } else if b == [] {
      CharNotQuote(a[0]);
      SameHead([QUOTE], y, ChText(a[0]), CharsText(a[1..]) + ([QUOTE] + x));
    } else {
      CharUnique(a[0], CharsText(a[1..]) + ([QUOTE] + x), b[0], CharsText(b[1..]) + ([QUOTE] + y));
      CharsUnique(a[1..], x, b[1..], y);
      assert a == [a[0]] + a[1..] && b == [b[0]] + b[1..];
    }
  }

  /** The rest of a string starts with a character or with its closing quote. */
  lemma FirstOrQuote(a: seq<Ch>, x: Text)
    ensures CharsText(a) + ([QUOTE] + x) ==
              if a == [] then [QUOTE] + x else ChText(a[0]) + (CharsText(a[1..]) + ([QUOTE] + x))
  {
    hide ChText;
    if a == [] {
      assert [] + ([QUOTE] + x) == [QUOTE] + x;
    }
  }

  lemma QuoteUnique(a: seq<Ch>, x: Text, b: seq<Ch>, y: Text)
    requires SynChars(a) && SynChars(b) && QuoteText(a) + x == QuoteText(b) + y
    ensures a == b && x == y
  {
    hide CharsText, SynChars;
    var s, t := CharsText(a) + ([QUOTE] + x), CharsText(b) + ([QUOTE] + y);
    assert QuoteText(a) + x == [QUOTE] + s;
    assert QuoteText(b) + y == [QUOTE] + t;
    SameLength([QUOTE], s, [QUOTE], t);
    CharsUnique(a, x, b, y);
  }

  // ---------------------------------------------------------------------
  // Values
  // ---------------------------------------------------------------------

  /** First character of a document, which tells its kind. */
  lemma SynHead(doc: Doc)
    requires SynDoc(doc)
    ensures var t := DocText(doc);
            && Solid(t) && t[0] != CLOSE_ARR && t[0] != CLOSE_OBJ
            && (doc.Num? <==> IsIntChar(t[0])) && (doc.Quote? <==> t[0] == QUOTE)
            && (doc.Group? <==> t[0] == OPEN_ARR || t[0] == OPEN_OBJ)
            && (doc.Group? ==> t[0] == OpenChar(doc.isArray))
            && (doc.Lit? ==> doc.v == (if t[0] == TRUE_TEXT[0] then Bool(true)
                                       else if t[0] == FALSE_TEXT[0] then Bool(false) else Null))
  {
    hide CharsText, ItemsText, SynChars, CloseOk, SynItems;
  }

  lemma SolidMore(t: Text, x: Text)
    requires Solid(t)
    ensures Solid(t + x) && (t + x)[0] == t[0]
  {
  }

  /** A document and what follows it are told apart in one way only. */
  lemma {:induction false} DocUnique(a: Doc, x: Text, b: Doc, y: Text)
    requires SynDoc(a) && SynDoc(b) && DocText(a) + x == DocText(b) + y
    requires (a.Num? ==> Stops(x)) && (b.Num? ==> Stops(y))
    ensures a == b && x == y
    decreases a, 2
  {
    hide QuoteText, ItemsText, SynChars, NumberRun, CloseOk, SynItems, Stops, IsIntChar, IsSpace;
    SynHead(a);
    SynHead(b);
    SameHead(DocText(a), x, DocText(b), y);
    match a
    case Lit(_) =>
      assert DocText(a) == DocText(b);
      SameLength(DocText(a), x, DocText(b), y);
    case Num(text) => RunUnique(text, x, b.text, y);
    case Quote(chars) => QuoteUnique(chars, x, b.chars, y);
    case Group(isArray, items, trailing, close) =>
      var s, t := ItemsText(isArray, items, trailing, close), ItemsText(isArray, b.items, b.trailing, b.close);
      assert DocText(a) + x == [OpenChar(isArray)] + (s + x);
      assert DocText(b) + y == [OpenChar(isArray)] + (t + y);
      SameLength([OpenChar(isArray)], s + x, [OpenChar(isArray)], t + y);
      ItemsUnique(isArray, items, trailing, close, x, b.items, b.trailing, b.close, y);
  }

  /** The same for a list of items, its trailing comma and its closing bracket. */
  lemma {:induction false} ItemsUnique(
      isArray: bool, a: seq<Item>, ta: bool, ca: Text, x: Text, b: seq<Item>, tb: bool, cb: Text, y: Text)
    requires SynItems(isArray, a) && SynItems(isArray, b) && CloseOk(a, ta, ca) && CloseOk(b, tb, cb)
    requires ItemsText(isArray, a, ta, ca) + x == ItemsText(isArray, b, tb, cb) + y
    ensures a == b && ta == tb && ca == cb && x == y
    decreases a, 2
  {
    hide ItemsText, ItemText, SynItem, SynItems, Blank;
    TextFacts(isArray, a, ta, ca, x);
    TextFacts(isArray, b, tb, cb, y);
    if a == [] && b == [] {
      ClosesUnique(isArray, ca, x, cb, y);
    } else if a == [] {
      CloseOrItem(isArray, ca, x, b[0], Rest(isArray, b, tb, cb, y));
    } else if b == [] {
      CloseOrItem(isArray, cb, y, a[0], Rest(isArray, a, ta, ca, x));
    } else {
      var s, t := Rest(isArray, a, ta, ca, x), Rest(isArray, b, tb, cb, y);
      ItemUnique(isArray, a[0], s, b[0], t);
      assert a == [a[0]] + a[1..] && b == [b[0]] + b[1..];
      RestUnique(isArray, a, ta, ca, x, b, tb, cb, y);
    }
  }

  /** What follows the first item. */
  function Rest(isArray: bool, items: seq<Item>, trailing: bool, close: Text, x: Text): Text
    requires items != []
  {
    if |items| == 1 && !trailing then [EndChar(isArray)] + x
    else [COMMA] + (ItemsText(isArray, items[1..], trailing, close) + x)
  }

  lemma TextFacts(isArray: bool, items: seq<Item>, trailing: bool, close: Text, x: Text)
    requires SynItems(isArray, items)
    ensures items == [] ==> ItemsText(isArray, items, trailing, close) + x == close + ([EndChar(isArray)] + x)
    ensures items != [] ==>
              && SynItem(isArray, items[0]) && SynItems(isArray, items[1..])
              && ItemsText(isArray, items, trailing, close) + x
                 == ItemText(items[0]) + Rest(isArray, items, trailing, close, x)
  {
    hide ItemText, SynItem;
    if items == [] {
      assert close + [EndChar(isArray)] + x == close + ([EndChar(isArray)] + x);
    } else {
      var t := ItemText(items[0]);
      if |items| == 1 && !trailing {
        assert t + [EndChar(isArray)] + x == t + ([EndChar(isArray)] + x);
      } else {
        var more := ItemsText(isArray, items[1..], trailing, close);
        assert t + ([COMMA] + more) + x == t + ([COMMA] + (more + x));
      }
    }
  }

  lemma ClosesUnique(isArray: bool, ca: Text, x: Text, cb: Text, y: Text)
    requires Blank(ca) && Blank(cb) && ca + ([EndChar(isArray)] + x) == cb + ([EndChar(isArray)] + y)
    ensures ca == cb && x == y
  {
    hide Blank;
    BlankUnique(ca, [EndChar(isArray)] + x, cb, [EndChar(isArray)] + y);
    SameLength([EndChar(isArray)], x, [EndChar(isArray)], y);
  }

  /** An item does not start with the closing bracket. */
  lemma CloseOrItem(isArray: bool, close: Text, x: Text, item: Item, rest: Text)
    requires Blank(close) && SynItem(isArray, item)
    ensures close + ([EndChar(isArray)] + x) != ItemText(item) + rest
  {
    hide Blank, SynName, SynDoc, NameText, DocText, ItemText, ItemCore, SynItem;
    CoreHead(isArray, item, rest);
    if close + ([EndChar(isArray)] + x) == item.before + ItemCore(item, rest) {
      BlankUnique(close, [EndChar(isArray)] + x, item.before, ItemCore(item, rest));
    }
  }

  /** An item without the white space before it. */
  function ItemCore(item: Item, rest: Text): Text {
    NameText(item.name) + (DocText(item.value) + (item.after + rest))
  }

  lemma CoreHead(isArray: bool, item: Item, rest: Text)
    requires SynItem(isArray, item)
    ensures ItemText(item) + rest == item.before + ItemCore(item, rest)
    ensures Solid(ItemCore(item, rest)) && ItemCore(item, rest)[0] != EndChar(isArray)
    ensures Blank(item.before) && SynName(item.name, isArray) && SynDoc(item.value) && Blank(item.after)
  {
    hide DocText, Blank, SynDoc, QuoteText, SynChars;
    var name, doc := NameText(item.name), DocText(item.value);
    SynHead(item.value);
    assert item.before + (name + (doc + item.after)) + rest == item.before + (name + (doc + (item.after + rest)));
    SolidMore(doc, item.after + rest);
  }

  lemma {:induction false} ItemUnique(isArray: bool, a: Item, x: Text, b: Item, y: Text)
    requires SynItem(isArray, a) && SynItem(isArray, b) && ItemText(a) + x == ItemText(b) + y
    requires Solid(x) && Solid(y) && Stops(x) && Stops(y)
    ensures a == b && x == y
    decreases a, 3
  {
    hide Blank, SynName, SynDoc, NameText, DocText, ItemText, Solid, Stops, SynItem;
    CoreHead(isArray, a, x);
    CoreHead(isArray, b, y);
    BlankUnique(a.before, ItemCore(a, x), b.before, ItemCore(b, y));
    var s, t := DocText(a.value) + (a.after + x), DocText(b.value) + (b.after + y);
    DocSolid(a.value, a.after + x);
    DocSolid(b.value, b.after + y);
    NameUnique(isArray, a.name, s, b.name, t);
    BlankStops(a.after, x);
    BlankStops(b.after, y);
    DocUnique(a.value, a.after + x, b.value, b.after + y);
    BlankUnique(a.after, x, b.after, y);
  }

  lemma DocSolid(doc: Doc, x: Text)
    requires SynDoc(doc)
    ensures Solid(DocText(doc) + x)
  {
    hide DocText, SynDoc;
    SynHead(doc);
    SolidMore(DocText(doc), x);
  }

  lemma BlankStops(t: Text, x: Text)
    requires Blank(t) && Stops(x)
    ensures Stops(t + x)
  {
    if t != [] {
      assert (t + x)[0] == t[0];
    }
  }

  lemma NameUnique(isArray: bool, a: Option<Name>, x: Text, b: Option<Name>, y: Text)
    requires SynName(a, isArray) && SynName(b, isArray) && NameText(a) + x == NameText(b) + y && Solid(x) && Solid(y)
    ensures a == b && x == y
  {
    hide QuoteText, SynChars, Blank, Solid;
    if isArray {
      assert [] + x == x && [] + y == y;
    } else {
      var l, m := a.value, b.value;
      var s, t := l.before + ([COLON] + (l.after + x)), m.before + ([COLON] + (m.after + y));
      assert NameText(a) + x == QuoteText(l.chars) + s;
      assert NameText(b) + y == QuoteText(m.chars) + t;
      QuoteUnique(l.chars, s, m.chars, t);
      ColonSolid(l.after + x);
      ColonSolid(m.after + y);
      BlankUnique(l.before, [COLON] + (l.after + x), m.before, [COLON] + (m.after + y));
      SameLength([COLON], l.after + x, [COLON], m.after + y);
      BlankUnique(l.after, x, m.after, y);
    }
  }

  lemma ColonSolid(x: Text)
    ensures Solid([COLON] + x)
  {
  }

  /** What follows equal items is equal. */
  lemma {:induction false} RestUnique(
      isArray: bool, a: seq<Item>, ta: bool, ca: Text, x: Text, b: seq<Item>, tb: bool, cb: Text, y: Text)
    requires a != [] && b != [] && SynItems(isArray, a[1..]) && SynItems(isArray, b[1..])
    requires CloseOk(a, ta, ca) && CloseOk(b, tb, cb)
    requires Rest(isArray, a, ta, ca, x) == Rest(isArray, b, tb, cb, y)
    ensures a[1..] == b[1..] && ta == tb && ca == cb && x == y
    decreases a, 1
  {
    hide ItemsText, SynItems, Blank;
    var la, lb := |a| == 1 && !ta, |b| == 1 && !tb;
    assert la <==> Rest(isArray, a, ta, ca, x)[0] == EndChar(isArray);
    assert lb <==> Rest(isArray, b, tb, cb, y)[0] == EndChar(isArray);
    if la {
      SameLength([EndChar(isArray)], x, [EndChar(isArray)], y);
    } else {
      var ra, rb := a[1..], b[1..];
      var s, t := ItemsText(isArray, ra, ta, ca) + x, ItemsText(isArray, rb, tb, cb) + y;
      SameLength([COMMA], s, [COMMA], t);
      // A trailing comma is told by the white space that may follow it.
      TrailingText(isArray, ra, ta, ca);
      TrailingText(isArray, rb, tb, cb);
      ItemsUnique(isArray, ra, ta && ra != [], ca, x, rb, tb && rb != [], cb, y);
    }
  }

  lemma TrailingText(isArray: bool, items: seq<Item>, trailing: bool, close: Text)
    ensures ItemsText(isArray, items, trailing, close) == ItemsText(isArray, items, trailing && items != [], close)
  {
  }

  // ---------------------------------------------------------------------
  // Whole texts
  // ---------------------------------------------------------------------

  lemma {:induction false} OkIsSyn(doc: Doc, strtod: Strtod)
    requires DocOk(doc, strtod)
    ensures SynDoc(doc)
    decreases doc, 1
  {
    hide CloseOk, NumberRun;
    match doc
    case Lit(_) =>
    case Num(text) =>
    case Quote(chars) => OkCharsSyn(chars);
    case Group(isArray, items, _, _) => OkItemsSyn(isArray, items, strtod);
  }

  lemma OkCharsSyn(chars: seq<Ch>)
    requires CharsOk(chars)
    ensures SynChars(chars)
  {
    forall k | 0 <= k < |chars|
      ensures SynChar(chars[k])
    {
      assert ChOk(chars[k]);
    }
  }

  lemma {:induction false} OkItemsSyn(isArray: bool, items: seq<Item>, strtod: Strtod)
    requires ItemsOk(isArray, items, strtod)
    ensures SynItems(isArray, items)
    decreases items
  {
    hide CharsOk, SynChars, Blank;
    if items != [] {
      var item := items[0];
      assert ItemOk(isArray, item, strtod);
      if item.name.Some? {
        OkCharsSyn(item.name.value.chars);
      }
      OkIsSyn(item.value, strtod);
      OkItemsSyn(isArray, items[1..], strtod);
      assert SynItem(isArray, item);
    }
  }

  lemma {:induction false} RfcIsSyn(doc: Doc)
    requires RfcDoc(doc)
    ensures SynDoc(doc)
    decreases doc, 1
  {
    hide RfcNumber, NumberRun, RfcChars, SynChars, Blank, RfcBlank;
    match doc
    case Lit(_) =>
    case Num(text) => RfcNumberRun(text);
    case Quote(chars) => RfcCharsSyn(chars);
    case Group(isArray, items, _, close) =>
      RfcBlankOk(close);
      RfcItemsSyn(isArray, items);
  }

  lemma RfcCharsSyn(chars: seq<Ch>)
    requires RfcChars(chars)
    ensures SynChars(chars)
  {
    forall k | 0 <= k < |chars|
      ensures SynChar(chars[k])
    {
      assert RfcChar(chars[k]);
    }
  }

  lemma {:induction false} RfcItemsSyn(isArray: bool, items: seq<Item>)
    requires RfcItems(isArray, items)
    ensures SynItems(isArray, items)
    decreases items
  {
    hide RfcChars, SynChars, Blank, RfcBlank;
    if items != [] {
      var item := items[0];
      assert RfcItem(isArray, item);
      RfcBlankOk(item.before);
      RfcBlankOk(item.after);
      if item.name.Some? {
        RfcBlankOk(item.name.value.before);
        RfcBlankOk(item.name.value.after);
        RfcCharsSyn(item.name.value.chars);
      }
      RfcIsSyn(item.value);
      RfcItemsSyn(isArray, items[1..]);
      assert SynItem(isArray, item);
    }
  }

  /** A text of RFC 8259: a document of its grammar, with white space around it. */
  ghost predicate IsRfcText(t: Text) {
    exists pre, doc, post :: RfcParts(t, pre, doc, post)
  }

  ghost predicate RfcParts(t: Text, pre: Text, doc: Doc, post: Text) {
    t == pre + (DocText(doc) + post) && RfcBlank(pre) && RfcDoc(doc) && RfcBlank(post)
  }

  /** White space, a document and white space are told apart in one way only. */
  lemma TextUnique(pre: Text, a: Doc, post: Text, pre': Text, b: Doc, post': Text)
    requires Blank(pre) && Blank(pre') && Blank(post) && Blank(post') && SynDoc(a) && SynDoc(b)
    requires pre + (DocText(a) + post) == pre' + (DocText(b) + post')
    ensures pre == pre' && a == b && post == post'
  {
    hide Blank, SynDoc, DocText, Solid, Stops;
    DocSolid(a, post);
    DocSolid(b, post');
    BlankUnique(pre, DocText(a) + post, pre', DocText(b) + post');
    AfterIsStop(post);
    AfterIsStop(post');
    DocUnique(a, post, b, post');
  }

  lemma AfterIsStop(post: Text)
    requires Blank(post)
    ensures Stops(post)
  {
  }

  /** However it is read, a text is one of RFC 8259 if and only if its document is. */
  lemma RfcTextUnique(pre: Text, doc: Doc, post: Text)
    requires Blank(pre) && SynDoc(doc) && Blank(post)
    ensures IsRfcText(pre + (DocText(doc) + post)) <==> RfcDoc(doc) && RfcBlank(pre) && RfcBlank(post)
  {
    hide Blank, RfcBlank, RfcDoc, DocText, SynDoc;
    var t := pre + (DocText(doc) + post);
    if IsRfcText(t) {
      var pre', doc', post' :| RfcParts(t, pre', doc', post');
      RfcIsSyn(doc');
      RfcBlankOk(pre');
      RfcBlankOk(post');
      TextUnique(pre, doc, post, pre', doc', post');
    }
    if RfcDoc(doc) && RfcBlank(pre) && RfcBlank(post) {
      assert RfcParts(t, pre, doc, post);
    }
  }

  /**
    The text of an accepted document, with white space around it, is a text of
    RFC 8259 if and only if the document uses none of the extras and the white
    space is that of the grammar.
  */
  lemma RfcTextExact(pre: Text, doc: Doc, post: Text, strtod: Strtod)
    requires Blank(pre) && DocOk(doc, strtod) && Blank(post)
    ensures IsRfcText(pre + (DocText(doc) + post)) <==> DocExtras(doc) == {} && RfcBlank(pre) && RfcBlank(post)
  {
    hide *;
    OkIsSyn(doc, strtod);
    ExtrasExact(doc, strtod);
    RfcTextUnique(pre, doc, post);
  }

  /** The parser reads a text as the one document that it is the text of, if it accepts it at all. */
  lemma ParsedIsDoc(doc: Doc, post: Text, strtod: Strtod)
    requires SynDoc(doc) && !IsNumberChar((post + [0])[0]) && Local(strtod)
    requires |DocText(doc) + post| < SIZE_MODULUS
    ensures var r := PParse(DocText(doc) + post + [0], strtod);
            r.Ok? ==> DocOk(doc, strtod) && r == Ok(Node(None, DocValue(doc, strtod)), |DocText(doc)|)
  {
    hide DocText, SynDoc, DocOk, DocValue, PValue, SkipSpace, IsNumberChar, Local, IsSpace;
    var b := DocText(doc) + post + [0];
    if PParse(b, strtod).Ok? {
      var n := PParse(b, strtod).next;
      var read := ReadValue(b, 0, strtod);
      SynHead(doc);
      assert b[0] == DocText(doc)[0];
      SkipNothing(b, 0);
      OkIsSyn(read, strtod);
      DelimitedNumber(b, n, read);
      assert b == DocText(read) + b[n..];
      assert b == DocText(doc) + (post + [0]);
      DocUnique(doc, post + [0], read, b[n..]);
    }
  }
}
