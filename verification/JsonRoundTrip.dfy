/**
  Writing a tree and parsing the text gives the tree back, in the compact and
  in the formatted form: what the writer produces is the text of a document
  with the tree as its value.
*/
module JsonRoundTrip {
  import opened Common
  import opened JsonSyntax
  import opened JsonEscape
  import opened JsonParser
  import opened JsonGrammar
  import opened JsonAccepts
  import opened JsonSound
  import opened JsonRfc
  import opened JsonUnique
  import opened JsonStrings
  import W = JsonWriter
  import M = JsonMemory
  import P = JsonInPlace

  // ---------------------------------------------------------------------
  // The document that the writer produces
  // ---------------------------------------------------------------------

  function LineEnd(formatted: bool): Text {
    if formatted then [LF] else []
  }

  function Indent(formatted: bool, indent: nat): Text {
    if formatted then W.Spaces(indent) else []
  }

  function NameOf(name: Option<Text>, lib: W.Platform, formatted: bool): Option<Name> {
    match name
    case None => None
    case Some(s) => Some(Name(CharsOf(s, lib.signed), [], if formatted then [SPACE] else []))
  }

  function DocOf(d: Data<Text>, lib: W.Platform, formatted: bool, indent: nat): Doc
    decreases d
  {
    match d
    case Int(i) => Num(W.Decimal(i))
    case Float(x) => Num(lib.show(x))
    case Str(s) => Quote(CharsOf(s, lib.signed))
    case Cont(isArray, kids) =>
      var close := if kids == [] then CloseOf(formatted, indent) else [];
      Group(isArray, ItemsOf(kids, lib, formatted, indent), false, close)
    case _ => Lit(d)
  }

  /** Line end and indentation before a closing bracket. */
  function CloseOf(formatted: bool, indent: nat): Text {
    LineEnd(formatted) + Indent(formatted, indent)
  }

  function ItemsOf(kids: seq<Node<Text>>, lib: W.Platform, formatted: bool, indent: nat): (items: seq<Item>)
    ensures |items| == |kids|
    decreases kids
  {
    if kids == [] then []
    else [ItemOf(kids[0], |kids| == 1, lib, formatted, indent)] + ItemsOf(kids[1..], lib, formatted, indent)
  }

  function ItemOf(kid: Node<Text>, last: bool, lib: W.Platform, formatted: bool, indent: nat): Item
    decreases kid
  {
    Item(LineEnd(formatted) + Indent(formatted, indent + W.INDENT), NameOf(kid.name, lib, formatted),
         DocOf(kid.data, lib, formatted, indent + W.INDENT), if last then CloseOf(formatted, indent) else [])
  }

  // ---------------------------------------------------------------------
  // Its text
  // ---------------------------------------------------------------------

  /** Every value is written completely, and so is every name. */
  predicate Whole(d: Data<Text>, lib: W.Platform)
    decreases d
  {
    match d
    case Float(x) => |lib.show(x)| < W.SCRATCH_SIZE
    case Str(s) => Accepted(s, lib.signed)
    case Cont(_, kids) =>
      forall k :: 0 <= k < |kids| ==> NameWhole(kids[k].name, lib) && Whole(kids[k].data, lib)
    case _ => true
  }

  predicate NameWhole(name: Option<Text>, lib: W.Platform) {
    name.Some? ==> Accepted(name.value, lib.signed)
  }

  predicate KidsWhole(kids: seq<Node<Text>>, lib: W.Platform) {
    forall k :: 0 <= k < |kids| ==> NameWhole(kids[k].name, lib) && Whole(kids[k].data, lib)
  }

  lemma {:induction false} WholeCompletes(d: Data<Text>, lib: W.Platform)
    requires Whole(d, lib)
    ensures W.Completes(d, lib)
    decreases d
  {
    if d.Cont? {
      forall k | 0 <= k < |d.kids|
        ensures W.Completes(d.kids[k].data, lib)
      {
        WholeCompletes(d.kids[k].data, lib);
      }
    }
  }

  lemma NameOfText(name: Option<Text>, lib: W.Platform, formatted: bool)
    requires NameWhole(name, lib)
    ensures NameText(NameOf(name, lib, formatted)) == W.NameText(name, lib, formatted)
  {
    hide QuoteText, CharsOf, Quoted;
    match name
    case None =>
    case Some(s) =>
      QuotedIsText(s, lib.signed);
      var after := if formatted then [SPACE] else [];
      var q := Quoted(s, lib.signed);
      assert q + ([] + [COLON] + after) == q + [COLON] + after;
  }

  lemma IndentIsSpaces(formatted: bool, indent: nat)
    ensures Indent(formatted, indent) == if formatted && indent > 0 then W.Spaces(indent) else []
  {
  }

  /** The document has the text that is written. */
  lemma {:induction false} DocOfText(d: Data<Text>, lib: W.Platform, formatted: bool, indent: nat)
    requires Whole(d, lib)
    ensures DocText(DocOf(d, lib, formatted, indent)) == W.Body(d, lib, formatted, indent)
    decreases d, 1
  {
    hide QuoteText, ItemsText, W.KidsText, W.Decimal, CharsOf, W.Spaces, ItemsOf, Quoted, Accepted;
    match d
    case Str(s) => QuotedIsText(s, lib.signed);
    case Cont(isArray, kids) =>
      WholeCompletes(d, lib);
      ItemsOfText(isArray, kids, lib, formatted, indent);
      ContBody(isArray, kids, lib, formatted, indent);
    case _ =>
  }

  lemma ContBody(isArray: bool, kids: seq<Node<Text>>, lib: W.Platform, formatted: bool, indent: nat)
    requires W.KidsComplete(kids, lib)
    ensures W.Body(Cont(isArray, kids), lib, formatted, indent)
            == [OpenChar(isArray)] + (LineEnd(formatted) + W.KidsText(kids, lib, formatted, indent + W.INDENT)
                                      + (Indent(formatted, indent) + [EndChar(isArray)]))
  {
    hide W.KidsText, W.Spaces, W.KidsComplete, Indent;
    IndentIsSpaces(formatted, indent);
    var inner := W.KidsText(kids, lib, formatted, indent + W.INDENT);
    var sp := Indent(formatted, indent);
    assert [OpenChar(isArray)] + (LineEnd(formatted) + inner + (sp + [EndChar(isArray)]))
        == [OpenChar(isArray)] + LineEnd(formatted) + inner + (sp + [EndChar(isArray)]);
  }

  lemma {:induction false} ItemsOfText(
      isArray: bool, kids: seq<Node<Text>>, lib: W.Platform, formatted: bool, indent: nat)
    requires KidsWhole(kids, lib)
    ensures var close := if kids == [] then CloseOf(formatted, indent) else [];
            ItemsText(isArray, ItemsOf(kids, lib, formatted, indent), false, close)
            == LineEnd(formatted) + W.KidsText(kids, lib, formatted, indent + W.INDENT)
               + (Indent(formatted, indent) + [EndChar(isArray)])
    decreases kids, 0
  {
    hide W.KidsText, ItemsText, ItemsOf, W.KidText, ItemText, ItemOf, Whole, NameWhole, W.Completes, Indent;
    var nl, sp, end := LineEnd(formatted), Indent(formatted, indent), [EndChar(isArray)];
    if kids == [] {
      NoKids(isArray, lib, formatted, indent);
      assert nl + sp + end == nl + [] + (sp + end);
    } else {
      var kid, rest, last := kids[0], kids[1..], |kids| == 1;
      var item := ItemOf(kid, last, lib, formatted, indent);
      ItemOfText(kid, last, lib, formatted, indent);
      ItemsOfParts(isArray, kids, lib, formatted, indent);
      KidsWholeRest(kids, lib);
      WholeCompletes(kid.data, lib);
      var t := W.KidText(kid, last, lib, formatted, indent + W.INDENT);
      if last {
        NoKids(isArray, lib, formatted, indent);
        assert rest == [];
        assert nl + t + sp + end == nl + (t + []) + (sp + end);
      } else {
        ItemsOfText(isArray, rest, lib, formatted, indent);
        MoreText(ItemText(item), nl, t, W.KidsText(rest, lib, formatted, indent + W.INDENT), sp + end);
      }
    }
  }

  lemma MoreText(item: Text, nl: Text, t: Text, more: Text, tail: Text)
    requires item + [COMMA] + nl == nl + t
    ensures item + ([COMMA] + (nl + more + tail)) == nl + (t + more) + tail
  {
    assert item + ([COMMA] + (nl + more + tail)) == (item + [COMMA] + nl) + (more + tail);
    assert (nl + t) + (more + tail) == nl + (t + more) + tail;
  }

  lemma KidsWholeRest(kids: seq<Node<Text>>, lib: W.Platform)
    requires KidsWhole(kids, lib) && kids != []
    ensures KidsWhole(kids[1..], lib) && NameWhole(kids[0].name, lib) && Whole(kids[0].data, lib)
  {
    hide Whole, NameWhole;
  }

  lemma NoKids(isArray: bool, lib: W.Platform, formatted: bool, indent: nat)
    ensures ItemsText(isArray, ItemsOf([], lib, formatted, indent), false, CloseOf(formatted, indent))
            == CloseOf(formatted, indent) + [EndChar(isArray)]
    ensures W.KidsText([], lib, formatted, indent + W.INDENT) == []
  {
  }

  lemma ItemsOfParts(isArray: bool, kids: seq<Node<Text>>, lib: W.Platform, formatted: bool, indent: nat)
    requires kids != []
    ensures var items, rest := ItemsOf(kids, lib, formatted, indent), ItemsOf(kids[1..], lib, formatted, indent);
            var item := ItemOf(kids[0], |kids| == 1, lib, formatted, indent);
            && items == [item] + rest
            && ItemsText(isArray, items, false, []) ==
                 if |kids| == 1 then ItemText(item) + [EndChar(isArray)]
                 else ItemText(item) + ([COMMA] + ItemsText(isArray, rest, false, []))
    ensures W.KidsText(kids, lib, formatted, indent + W.INDENT)
            == W.KidText(kids[0], |kids| == 1, lib, formatted, indent + W.INDENT)
               + if W.Completes(kids[0].data, lib) then W.KidsText(kids[1..], lib, formatted, indent + W.INDENT) else []
  {
    hide ItemText, ItemOf, W.KidText, W.Completes;
    assert ItemsOf(kids, lib, formatted, indent)[1..] == ItemsOf(kids[1..], lib, formatted, indent);
  }

  /** An item is what is written for a child, except that the line end before it is the previous one's. */
  lemma {:induction false} ItemOfText(kid: Node<Text>, last: bool, lib: W.Platform, formatted: bool, indent: nat)
    requires NameWhole(kid.name, lib) && Whole(kid.data, lib)
    ensures var t := W.KidText(kid, last, lib, formatted, indent + W.INDENT);
            var item := ItemText(ItemOf(kid, last, lib, formatted, indent));
            if last then item == LineEnd(formatted) + t + Indent(formatted, indent)
            else item + [COMMA] + LineEnd(formatted) == LineEnd(formatted) + t
    decreases kid, 2
  {
    hide NameText, DocText, NameOf, DocOf, W.NameText, W.Body, W.Spaces, W.Completes, Whole, NameWhole;
    NameOfText(kid.name, lib, formatted);
    WholeCompletes(kid.data, lib);
    DocOfText(kid.data, lib, formatted, indent + W.INDENT);
    var nl, sp := LineEnd(formatted), Indent(formatted, indent + W.INDENT);
    var name, body := W.NameText(kid.name, lib, formatted), W.Body(kid.data, lib, formatted, indent + W.INDENT);
    ItemPieces(nl, sp, name, body, Indent(formatted, indent));
  }

  lemma ItemPieces(nl: Text, sp: Text, name: Text, body: Text, close: Text)
    ensures (nl + sp) + (name + (body + (nl + close))) == nl + (sp + name + body + ([] + nl)) + close
    ensures (nl + sp) + (name + (body + [])) + [COMMA] + nl == nl + (sp + name + body + ([COMMA] + nl))
  {
  }

  // ---------------------------------------------------------------------
  // Its value
  // ---------------------------------------------------------------------

  lemma {:induction false} DigitsRoundTrip(n: nat)
    ensures DigitsValue(W.Digits(n)) == n
  {
    if n >= 10 {
      DigitsRoundTrip(n / 10);
      assert W.Digits(n)[..|W.Digits(n)| - 1] == W.Digits(n / 10);
    } else {
      assert W.Digits(n)[..0] == [];
    }
  }

  /** A written integer converts to itself, out of range exactly beyond 64 bits. */
  lemma DecimalScan(i: int)
    ensures StrToLL(W.Decimal(i)) == IntScan(i, |W.Decimal(i)|, !W.IsInt64(i))
    ensures NumberRun(W.Decimal(i)) && !HasFloatChar(W.Decimal(i))
  {
    hide W.Digits, DigitsValue;
    var t := W.Decimal(i);
    var start := if i < 0 then 1 else 0;
    var digits := W.Digits(if i < 0 then -i else i);
    assert t[start..] == digits;
    assert i >= 0 ==> IsDigit(t[0]);
    DigitsScan(t, start);
    assert t[start..|t|] == digits;
    DigitsRoundTrip(if i < 0 then -i else i);
  }

  lemma SpacesBlank(formatted: bool, indent: nat)
    ensures RfcBlank(LineEnd(formatted) + Indent(formatted, indent)) && RfcBlank([]) && RfcBlank([SPACE])
    ensures Blank(LineEnd(formatted) + Indent(formatted, indent)) && Blank([]) && Blank([SPACE])
  {
  }

  /** A string comes back if it does not take the branch of multi-byte characters. */
  predicate NameBack(name: Option<Text>, lib: W.Platform) {
    name.Some? ==> NoneWide(name.value, lib.signed)
  }

  ghost predicate NameHasValue(n: Option<Name>, isArray: bool, name: Option<Text>) {
    NameOk(n, isArray) && NameValue(n) == name
  }

  lemma NameOfValue(name: Option<Text>, isArray: bool, lib: W.Platform, formatted: bool)
    requires W.WritableName(name, isArray) && NameWhole(name, lib)
    ensures NameHasValue(NameOf(name, lib, formatted), isArray, name) <==> NameBack(name, lib)
  {
    hide CharsOf, CharsOk, CharsValue, CStr, Blank, Accepted, NoneWide;
    SpacesBlank(formatted, 0);
    if name.Some? {
      StringReads(name.value, lib.signed);
    }
  }

  /** What is printed for a floating-point number is accepted, and converts to the number. */
  ghost predicate FloatBack(x: real, lib: W.Platform, strtod: Strtod) {
    NumOk(lib.show(x), strtod) && HasFloatChar(lib.show(x)) && strtod(lib.show(x)).value == x
  }

  /** So does every floating-point number of a tree, and every string and name. */
  ghost predicate AllBack(d: Data<Text>, lib: W.Platform, strtod: Strtod)
    decreases d
  {
    match d
    case Float(x) => FloatBack(x, lib, strtod)
    case Str(s) => NoneWide(s, lib.signed)
    case Cont(_, kids) =>
      forall k :: 0 <= k < |kids| ==> NameBack(kids[k].name, lib) && AllBack(kids[k].data, lib, strtod)
    case _ => true
  }

  ghost predicate KidsBack(kids: seq<Node<Text>>, lib: W.Platform, strtod: Strtod) {
    forall k :: 0 <= k < |kids| ==> NameBack(kids[k].name, lib) && AllBack(kids[k].data, lib, strtod)
  }

  lemma {:induction false} BackIsWhole(d: Data<Text>, lib: W.Platform, strtod: Strtod)
    requires W.Completes(d, lib) && AllBack(d, lib, strtod)
    ensures Whole(d, lib)
    decreases d
  {
    hide NoneWide, Accepted, FloatBack;
    if d.Cont? {
      forall k | 0 <= k < |d.kids|
        ensures NameWhole(d.kids[k].name, lib) && Whole(d.kids[k].data, lib)
      {
        BackIsWhole(d.kids[k].data, lib, strtod);
        if d.kids[k].name.Some? {
          NoneWideAccepted(d.kids[k].name.value, lib.signed);
        }
      }
    }
  }

  ghost predicate HasValue(doc: Doc, d: Data<Text>, strtod: Strtod) {
    DocOk(doc, strtod) && DocValue(doc, strtod) == d
  }

  ghost predicate HaveValues(isArray: bool, items: seq<Item>, kids: seq<Node<Text>>, strtod: Strtod) {
    ItemsOk(isArray, items, strtod) && ItemsValue(isArray, items, strtod) == kids
  }

  /**
    The document is accepted with the tree as its value, if and only if what
    can change comes back.
  */
  lemma {:induction false} DocOfValue(d: Data<Text>, lib: W.Platform, formatted: bool, indent: nat, strtod: Strtod)
    requires W.Writable(d) && Whole(d, lib)
    ensures HasValue(DocOf(d, lib, formatted, indent), d, strtod) <==> AllBack(d, lib, strtod)
    decreases d, 1
  {
    hide CharsOf, CharsOk, CharsValue, CStr, W.IsInt64, NoneWide, Accepted, W.WritableName, ItemsOf, ItemsOk,
         ItemsValue, Blank, W.Decimal, NumberRun, StrToLL, HasFloatChar, LocalAt;
    match d
    case Int(i) => DecimalScan(i);
    case Str(s) => StringReads(s, lib.signed);
    case Cont(isArray, kids) =>
      SpacesBlank(formatted, indent);
      ItemsOfValue(isArray, kids, lib, formatted, indent, strtod);
    case _ =>
  }

  lemma {:induction false} ItemsOfValue(
      isArray: bool, kids: seq<Node<Text>>, lib: W.Platform, formatted: bool, indent: nat, strtod: Strtod)
    requires forall k :: 0 <= k < |kids| ==> W.WritableName(kids[k].name, isArray) && W.Writable(kids[k].data)
    requires KidsWhole(kids, lib)
    ensures HaveValues(isArray, ItemsOf(kids, lib, formatted, indent), kids, strtod) <==> KidsBack(kids, lib, strtod)
    decreases kids, 0
  {
    hide W.Writable, W.WritableName, ItemOf, ItemOk, NameValue, DocValue, NameOk, DocOk, ItemsOk, ItemsValue, ItemsOf,
         ItemsText, ItemText, W.KidsText, W.KidText, HasValue, AllBack, Whole, NameWhole, NameBack;
    if kids == [] {
      NoItems(isArray, [], strtod);
      assert ItemsOf(kids, lib, formatted, indent) == [];
    } else {
      var kid, rest := kids[0], kids[1..];
      KidsWholeRest(kids, lib);
      ItemsOfParts(isArray, kids, lib, formatted, indent);
      ItemOfValue(isArray, kid, |kids| == 1, lib, formatted, indent, strtod);
      ItemsOfValue(isArray, rest, lib, formatted, indent, strtod);
      ItemsHaveValues(isArray, ItemOf(kid, |kids| == 1, lib, formatted, indent),
        ItemsOf(rest, lib, formatted, indent), kids, strtod);
      KidsBackFirst(kids, lib, strtod);
    }
  }

  lemma KidsBackFirst(kids: seq<Node<Text>>, lib: W.Platform, strtod: Strtod)
    requires kids != []
    ensures KidsBack(kids, lib, strtod)
            <==> NameBack(kids[0].name, lib) && AllBack(kids[0].data, lib, strtod) && KidsBack(kids[1..], lib, strtod)
  {
    hide AllBack, NameBack;
    assert forall k :: 0 < k < |kids| ==> kids[k] == kids[1..][k - 1];
  }

  ghost predicate ItemHasValue(isArray: bool, item: Item, kid: Node<Text>, strtod: Strtod) {
    ItemOk(isArray, item, strtod) && Node(NameValue(item.name), DocValue(item.value, strtod)) == kid
  }

  lemma ItemsHaveValues(isArray: bool, item: Item, rest: seq<Item>, kids: seq<Node<Text>>, strtod: Strtod)
    requires kids != []
    ensures HaveValues(isArray, [item] + rest, kids, strtod)
            <==> ItemHasValue(isArray, item, kids[0], strtod) && HaveValues(isArray, rest, kids[1..], strtod)
  {
    hide ItemOk, NameValue, DocValue, ItemsText, ItemText;
    var items := [item] + rest;
    assert items[0] == item && items[1..] == rest;
    assert kids == [kids[0]] + kids[1..];
    if ItemOk(isArray, item, strtod) && ItemsOk(isArray, rest, strtod) {
      OneItem(isArray, item, rest, false, [], strtod);
    }
  }

  lemma {:induction false} ItemOfValue(
      isArray: bool, kid: Node<Text>, last: bool, lib: W.Platform, formatted: bool, indent: nat, strtod: Strtod)
    requires W.WritableName(kid.name, isArray) && W.Writable(kid.data)
    requires NameWhole(kid.name, lib) && Whole(kid.data, lib)
    ensures ItemHasValue(isArray, ItemOf(kid, last, lib, formatted, indent), kid, strtod)
            <==> NameBack(kid.name, lib) && AllBack(kid.data, lib, strtod)
    decreases kid, 2
  {
    hide W.Writable, W.WritableName, NameOf, DocOf, DocOk, NameOk, DocValue, NameValue, Blank, RfcBlank, LineEnd,
         Indent, CloseOf, AllBack, NameBack, Whole, NameWhole;
    NameOfValue(kid.name, isArray, lib, formatted);
    DocOfValue(kid.data, lib, formatted, indent + W.INDENT, strtod);
    ItemSpaces(kid, last, lib, formatted, indent);
  }

  lemma ItemSpaces(kid: Node<Text>, last: bool, lib: W.Platform, formatted: bool, indent: nat)
    ensures var item := ItemOf(kid, last, lib, formatted, indent); Blank(item.before) && Blank(item.after)
    ensures var item := ItemOf(kid, last, lib, formatted, indent); RfcBlank(item.before) && RfcBlank(item.after)
  {
    hide NameOf, DocOf, Blank, RfcBlank, LineEnd, Indent;
    SpacesBlank(formatted, indent + W.INDENT);
    SpacesBlank(formatted, indent);
  }

  // ---------------------------------------------------------------------
  // Round trip
  // ---------------------------------------------------------------------

  predicate IsLiteral(d: Data<Text>) {
    d.Null? || d.Bool?
  }

  /** The C library prints finite numbers as numbers of RFC 8259 with a point or an exponent. */
  ghost predicate Formats(lib: W.Platform) {
    forall x :: RfcNumber(lib.show(x)) && HasFloatChar(lib.show(x))
  }

  /**
    Parsing the text that was written with success gives the tree back, if and only
    if what can change comes back and the root is not a bare literal, which is
    refused when it ends with the buffer.
  */
  lemma RoundTrip(d: Data<Text>, lib: W.Platform, formatted: bool, strtod: Strtod)
    requires W.Writable(d) && W.Completes(d, lib) && |W.Render(d, lib, formatted, 0)| < SIZE_MODULUS
    ensures var r := PParse(W.Render(d, lib, formatted, 0) + [0], strtod);
            && (AllBack(d, lib, strtod) ==>
                 r == if IsLiteral(d) then Err(END_OF_BUFFER) else Ok(Node(None, d), |W.Body(d, lib, formatted, 0)|))
            && (Local(strtod) && Formats(lib) && r.Ok? && r.value == Node(None, d) ==> AllBack(d, lib, strtod))
  {
    hide PParse, W.Body, DocText, DocOk, DocValue, Blank, Local, Formats, AllBack, SynDoc, W.Completes, W.Writable,
         Whole;
    if AllBack(d, lib, strtod) {
      BackIsWhole(d, lib, strtod);
    }
    if Local(strtod) && Formats(lib) {
      ReadBackIsWhole(d, lib, formatted, strtod);
    }
    if Whole(d, lib) {
      var doc := DocOf(d, lib, formatted, 0);
      WholeText(d, lib, formatted);
      DocOfValue(d, lib, formatted, 0, strtod);
      SpacesBlank(formatted, 0);
      var post := if d.Cont? && formatted then [LF] else [];
      assert [] + DocText(doc) + post == DocText(doc) + post;
      WritableKind(d, lib, formatted);
      if AllBack(d, lib, strtod) {
        TextParses([], doc, post, strtod);
      }
      if Local(strtod) && Formats(lib) {
        DocOfSyn(d, lib, formatted, 0);
        ParsedIsDoc(doc, post, strtod);
      }
    }
  }

  lemma WholeText(d: Data<Text>, lib: W.Platform, formatted: bool)
    requires Whole(d, lib)
    ensures var post := if d.Cont? && formatted then [LF] else [];
            DocText(DocOf(d, lib, formatted, 0)) + post == W.Render(d, lib, formatted, 0)
    ensures DocText(DocOf(d, lib, formatted, 0)) == W.Body(d, lib, formatted, 0)
  {
    hide DocText, DocOf, W.Body, Whole, W.Completes;
    DocOfText(d, lib, formatted, 0);
    WholeCompletes(d, lib);
  }

  lemma WritableKind(d: Data<Text>, lib: W.Platform, formatted: bool)
    ensures DocOf(d, lib, formatted, 0).Lit? <==> IsLiteral(d)
  {
  }

  /** The in-place parser, run on a written file, holds the tree that was written. */
  method WriteThenParse(d: Data<Text>, lib: W.Platform, formatted: bool, strtod: Strtod)
      returns (ret: int, session: P.Session)
    requires W.Writable(d) && W.Completes(d, lib) && |W.Render(d, lib, formatted, 0)| < SIZE_MODULUS
    requires !IsLiteral(d) && AllBack(d, lib, strtod)
    ensures ret == JSON_OK && session.Valid() && |session.trees| == 1
    ensures M.ViewNode(session.p.bytes[..], session.trees[0]) == Node(None, d)
  {
    hide W.Render, W.Writable, W.Completes, PParse, M.ViewNode, AllBack;
    var out;
    ret, out := W.WriteFile(d, lib, formatted, SIZE_MODULUS);
    session := new P.Session(out);
    RoundTrip(d, lib, formatted, strtod);
    ret := session.Parse(strtod);
  }

  // ---------------------------------------------------------------------
  // A name that was not accepted
  // ---------------------------------------------------------------------

  /** A name that was not accepted lacks a quote, and no text of the same tree has fewer than it should. */
  function Missing(whole: bool): nat {
    if whole then 0 else 1
  }

  lemma NumberQuotes(t: Text)
    requires NumberRun(t)
    ensures Quotes(t) == 0
  {
    NoQuotes(t);
  }

  lemma {:induction false} BodyQuotes(
      d: Data<Text>, lib: W.Platform, formatted: bool, indent: nat, doc: Doc, strtod: Strtod)
    requires W.Completes(d, lib) && Formats(lib) && HasValue(doc, d, strtod)
    ensures Quotes(W.Body(d, lib, formatted, indent)) + Missing(Whole(d, lib)) <= Quotes(DocText(doc))
    decreases d, 1
  {
    hide Quotes, W.KidsText, ItemsText, W.Decimal, NumberRun, Formats, QuoteText, Quoted, Accepted, CharsOk, CharsValue,
         CStr, W.Spaces, ItemsOk, ItemsValue, CloseOk;
    match d
    case Int(i) =>
      DecimalScan(i);
      NumberQuotes(W.Decimal(i));
    case Float(x) =>
      PrintedRun(x, lib);
      NumberQuotes(lib.show(x));
    case Str(s) => QuotedQuotes(s, lib.signed, doc.chars);
    case Cont(isArray, kids) =>
      GroupQuotes(isArray, kids, lib, formatted, indent, doc.items, doc.trailing, doc.close, strtod);
    case _ => LiteralQuotes();
  }

  lemma LiteralQuotes()
    ensures Quotes(NULL_TEXT) == Quotes(TRUE_TEXT) == Quotes(FALSE_TEXT) == 0
  {
    NoQuotes(NULL_TEXT);
    NoQuotes(TRUE_TEXT);
    NoQuotes(FALSE_TEXT);
  }

  lemma {:induction false} GroupQuotes(
      isArray: bool, kids: seq<Node<Text>>, lib: W.Platform, formatted: bool, indent: nat,
      items: seq<Item>, trailing: bool, close: Text, strtod: Strtod)
    requires W.KidsComplete(kids, lib) && Formats(lib) && HaveValues(isArray, items, kids, strtod)
    ensures Quotes(W.Body(Cont(isArray, kids), lib, formatted, indent)) + Missing(KidsWhole(kids, lib))
            <= Quotes([OpenChar(isArray)] + ItemsText(isArray, items, trailing, close))
    decreases kids, 1
  {
    hide Quotes, W.KidsText, ItemsText, Formats, HaveValues, KidsWhole, W.KidsComplete, W.Spaces;
    var open := [OpenChar(isArray)] + if formatted then [LF] else [];
    var end := (if formatted && indent > 0 then W.Spaces(indent) else []) + [EndChar(isArray)];
    NoQuotes(open);
    NoQuotes(end);
    var inner := W.KidsText(kids, lib, formatted, indent + W.INDENT);
    KidsQuotes(isArray, kids, lib, formatted, indent + W.INDENT, items, trailing, close, strtod);
    QuotesConcat(open + inner, end);
    QuotesConcat(open, inner);
    QuotesConcat([OpenChar(isArray)], ItemsText(isArray, items, trailing, close));
  }

  lemma {:induction false} KidsQuotes(
      isArray: bool, kids: seq<Node<Text>>, lib: W.Platform, formatted: bool, indent: nat,
      items: seq<Item>, trailing: bool, close: Text, strtod: Strtod)
    requires W.KidsComplete(kids, lib) && Formats(lib) && HaveValues(isArray, items, kids, strtod)
    ensures Quotes(W.KidsText(kids, lib, formatted, indent)) + Missing(KidsWhole(kids, lib))
            <= Quotes(ItemsText(isArray, items, trailing, close))
    decreases kids, 0
  {
    hide Quotes, W.KidText, ItemText, Formats, HaveValues, KidsWhole, W.KidsComplete, W.Completes;
    NoKidsQuotes(lib);
    if kids != [] {
      FirstHasValue(isArray, items, kids, strtod);
      FirstComplete(kids, lib);
      FirstWhole(kids, lib);
      KidQuotes(isArray, kids[0], |kids| == 1, lib, formatted, indent, items[0], strtod);
      KidsQuotes(isArray, kids[1..], lib, formatted, indent, items[1..], trailing, close, strtod);
      QuotesConcat(W.KidText(kids[0], |kids| == 1, lib, formatted, indent),
        W.KidsText(kids[1..], lib, formatted, indent));
      ItemsQuotes(isArray, items, trailing, close);
    }
  }

  lemma NoKidsQuotes(lib: W.Platform)
    ensures Quotes([]) == 0 && KidsWhole([], lib)
  {
  }

  lemma FirstComplete(kids: seq<Node<Text>>, lib: W.Platform)
    requires W.KidsComplete(kids, lib) && kids != []
    ensures W.Completes(kids[0].data, lib) && W.KidsComplete(kids[1..], lib)
  {
    hide W.Completes;
  }

  ghost predicate KidWhole(kid: Node<Text>, lib: W.Platform) {
    NameWhole(kid.name, lib) && Whole(kid.data, lib)
  }

  lemma FirstWhole(kids: seq<Node<Text>>, lib: W.Platform)
    requires kids != []
    ensures KidsWhole(kids, lib) <==> KidWhole(kids[0], lib) && KidsWhole(kids[1..], lib)
  {
    hide Whole, NameWhole;
    assert forall k :: 0 < k < |kids| ==> kids[k] == kids[1..][k - 1];
  }

  lemma FirstHasValue(isArray: bool, items: seq<Item>, kids: seq<Node<Text>>, strtod: Strtod)
    requires HaveValues(isArray, items, kids, strtod) && kids != []
    ensures items != [] && HaveValues(isArray, items[1..], kids[1..], strtod) && (|items| == 1 <==> |kids| == 1)
    ensures ItemHasValue(isArray, items[0], kids[0], strtod)
  {
    hide ItemOk, NameValue, DocValue, ItemsText, ItemText;
    assert items != [];
    FirstItem(isArray, items, false, [], strtod);
    assert kids == [kids[0]] + kids[1..];
  }

  lemma ItemsQuotes(isArray: bool, items: seq<Item>, trailing: bool, close: Text)
    requires items != []
    ensures Quotes(ItemsText(isArray, items, trailing, close))
            >= Quotes(ItemText(items[0]))
               + if |items| == 1 then 0 else Quotes(ItemsText(isArray, items[1..], trailing, close))
  {
    hide Quotes, ItemText;
    var rest := ItemsText(isArray, items[1..], trailing, close);
    QuotesConcat(ItemText(items[0]), [EndChar(isArray)]);
    QuotesConcat(ItemText(items[0]), [COMMA] + rest);
    QuotesConcat([COMMA], rest);
  }

  lemma {:induction false} KidQuotes(
      isArray: bool, kid: Node<Text>, last: bool, lib: W.Platform, formatted: bool, indent: nat, item: Item,
      strtod: Strtod)
    requires W.Completes(kid.data, lib) && Formats(lib) && ItemHasValue(isArray, item, kid, strtod)
    ensures Quotes(W.KidText(kid, last, lib, formatted, indent)) + Missing(KidWhole(kid, lib)) <= Quotes(ItemText(item))
    decreases kid, 2
  {
    hide Quotes, W.Body, NameText, W.NameText, DocText, Formats, Whole, NameWhole, W.Spaces, W.Completes, Blank, NameOk,
         NameValue, DocOk, DocValue;
    BodyQuotes(kid.data, lib, formatted, indent, item.value, strtod);
    NameQuotes(kid.name, isArray, lib, formatted, item.name);
    var sp := if formatted then W.Spaces(indent) else [];
    var name, body := W.NameText(kid.name, lib, formatted), W.Body(kid.data, lib, formatted, indent);
    NoQuotes(sp);
    NoQuotes(W.Separator(last, formatted));
    QuotesConcat(sp + name + body, W.Separator(last, formatted));
    QuotesConcat(sp + name, body);
    QuotesConcat(sp, name);
    QuotesConcat(item.before, NameText(item.name) + (DocText(item.value) + item.after));
    QuotesConcat(NameText(item.name), DocText(item.value) + item.after);
    QuotesConcat(DocText(item.value), item.after);
  }

  lemma NameQuotes(name: Option<Text>, isArray: bool, lib: W.Platform, formatted: bool, n: Option<Name>)
    requires NameHasValue(n, isArray, name)
    ensures Quotes(W.NameText(name, lib, formatted)) + Missing(NameWhole(name, lib)) <= Quotes(NameText(n))
  {
    hide Quotes, Quoted, QuoteText, Accepted, CharsOk, CharsValue, CStr, Blank;
    if name.Some? {
      var s, l := name.value, n.value;
      QuotedQuotes(s, lib.signed, l.chars);
      var tail := [COLON] + if formatted then [SPACE] else [];
      NoQuotes(tail);
      assert W.NameText(name, lib, formatted) == Quoted(s, lib.signed) + tail;
      QuotesConcat(Quoted(s, lib.signed), tail);
      QuotesConcat(QuoteText(l.chars), l.before + [COLON] + l.after);
    }
  }

  /** A part of a text does not have more quotes. */
  lemma PartQuotes(t: Text, i: nat, n: nat)
    requires i <= n <= |t|
    ensures Quotes(t[i..n]) <= Quotes(t)
  {
    QuotesConcat(t[..i], t[i..n]);
    QuotesConcat(t[..n], t[n..]);
    assert t[..n] == t[..i] + t[i..n] && t == t[..n] + t[n..];
  }

  /** If a tree comes back, all of its names were accepted: there are not enough quotes otherwise. */
  lemma ReadBackIsWhole(d: Data<Text>, lib: W.Platform, formatted: bool, strtod: Strtod)
    requires W.Completes(d, lib) && Formats(lib) && Local(strtod)
    requires |W.Render(d, lib, formatted, 0)| < SIZE_MODULUS
    ensures var r := PParse(W.Render(d, lib, formatted, 0) + [0], strtod);
            r.Ok? && r.value == Node(None, d) ==> Whole(d, lib)
  {
    hide PValue, W.Body, DocText, DocOk, DocValue, Local, Formats, W.Completes, Whole, SkipSpace, Quotes, Delimited;
    var text := W.Render(d, lib, formatted, 0);
    var b := text + [0];
    var r := PParse(b, strtod);
    if r.Ok? && r.value == Node(None, d) {
      var doc := ReadValue(b, 0, strtod);
      var i := SkipSpace(b, 0);
      BodyQuotes(d, lib, formatted, 0, doc, strtod);
      var post := if d.Cont? && W.Completes(d, lib) && formatted then [LF] else [];
      NoQuotes(post);
      QuotesConcat(W.Body(d, lib, formatted, 0), post);
      assert b[i..r.next] == text[i..r.next];
      PartQuotes(text, i, r.next);
    }
  }

  // ---------------------------------------------------------------------
  // The document can be told from its text
  // ---------------------------------------------------------------------

  lemma NameOfSyn(name: Option<Text>, isArray: bool, lib: W.Platform, formatted: bool)
    requires W.WritableName(name, isArray)
    ensures SynName(NameOf(name, lib, formatted), isArray)
  {
    hide CharsOf, SynChars, Blank;
    SpacesBlank(formatted, 0);
    if name.Some? {
      CharsOfSyn(name.value, lib.signed);
    }
  }

  lemma PrintedRun(x: real, lib: W.Platform)
    requires Formats(lib)
    ensures NumberRun(lib.show(x)) && RfcNumber(lib.show(x))
  {
    hide NumberRun, RfcNumber;
    RfcNumberRun(lib.show(x));
  }

  lemma {:induction false} DocOfSyn(d: Data<Text>, lib: W.Platform, formatted: bool, indent: nat)
    requires W.Writable(d) && Formats(lib)
    ensures SynDoc(DocOf(d, lib, formatted, indent))
    decreases d, 1
  {
    hide CharsOf, SynChars, ItemsOf, SynItems, Blank, W.Decimal, NumberRun, Formats, W.WritableName, W.IsCString;
    match d
    case Int(i) => DecimalScan(i);
    case Float(x) => PrintedRun(x, lib);
    case Str(s) => CharsOfSyn(s, lib.signed);
    case Cont(isArray, kids) =>
      SpacesBlank(formatted, indent);
      ItemsOfSyn(isArray, kids, lib, formatted, indent);
    case _ =>
  }

  lemma {:induction false} ItemsOfSyn(
      isArray: bool, kids: seq<Node<Text>>, lib: W.Platform, formatted: bool, indent: nat)
    requires forall k :: 0 <= k < |kids| ==> W.WritableName(kids[k].name, isArray) && W.Writable(kids[k].data)
    requires Formats(lib)
    ensures SynItems(isArray, ItemsOf(kids, lib, formatted, indent))
    decreases kids, 0
  {
    hide W.Writable, W.WritableName, ItemOf, SynItem, Formats;
    if kids != [] {
      var items, rest := ItemsOf(kids, lib, formatted, indent), kids[1..];
      assert items[1..] == ItemsOf(rest, lib, formatted, indent);
      ItemOfSyn(isArray, kids[0], |kids| == 1, lib, formatted, indent);
      ItemsOfSyn(isArray, rest, lib, formatted, indent);
    }
  }

  lemma {:induction false} ItemOfSyn(
      isArray: bool, kid: Node<Text>, last: bool, lib: W.Platform, formatted: bool, indent: nat)
    requires W.WritableName(kid.name, isArray) && W.Writable(kid.data) && Formats(lib)
    ensures SynItem(isArray, ItemOf(kid, last, lib, formatted, indent))
    decreases kid, 2
  {
    hide W.Writable, W.WritableName, NameOf, SynName, DocOf, SynDoc, Blank, RfcBlank, LineEnd, Indent, CloseOf, Formats;
    NameOfSyn(kid.name, isArray, lib, formatted);
    DocOfSyn(kid.data, lib, formatted, indent + W.INDENT);
    ItemSpaces(kid, last, lib, formatted, indent);
  }

  // ---------------------------------------------------------------------
  // What the writer produces follows RFC 8259, but for control characters
  // ---------------------------------------------------------------------

  predicate AllEscaped(d: Data<Text>)
    decreases d
  {
    match d
    case Str(s) => Escaped(s)
    case Cont(_, kids) =>
      forall k :: 0 <= k < |kids| ==> (kids[k].name.Some? ==> Escaped(kids[k].name.value)) && AllEscaped(kids[k].data)
    case _ => true
  }

  lemma DecimalRfc(i: int)
    ensures RfcNumber(W.Decimal(i))
  {
    hide RfcNumber;
    var t := W.Decimal(i);
    var start := if i < 0 then 1 else 0;
    var digits := W.Digits(if i < 0 then -i else i);
    assert t[start..] == digits;
    NoLeadingZero(if i < 0 then -i else i);
    IntIsRfc(t, start);
  }

  lemma {:induction false} NoLeadingZero(n: nat)
    ensures W.Digits(n)[0] == ZERO ==> |W.Digits(n)| == 1
    ensures n > 0 ==> W.Digits(n)[0] != ZERO
  {
    if n >= 10 {
      NoLeadingZero(n / 10);
    }
  }

  /** The document that is written follows the grammar if and only if all control characters have escapes. */
  lemma {:induction false} WrittenDocRfc(d: Data<Text>, lib: W.Platform, formatted: bool, indent: nat)
    requires W.Writable(d) && Whole(d, lib) && Formats(lib)
    ensures RfcDoc(DocOf(d, lib, formatted, indent)) <==> AllEscaped(d)
    decreases d, 1
  {
    hide CharsOf, RfcChars, Escaped, Accepted, ItemsOf, RfcItems, RfcBlank, RfcNumber, NumberRun, Formats,
         W.WritableName;
    match d
    case Int(i) => DecimalRfc(i);
    case Float(x) => PrintedRun(x, lib);
    case Str(s) => CharsOfRfc(s, lib.signed);
    case Cont(isArray, kids) =>
      SpacesBlank(formatted, indent);
      WrittenItemsRfc(isArray, kids, lib, formatted, indent);
    case _ =>
  }

  lemma {:induction false} WrittenItemsRfc(
      isArray: bool, kids: seq<Node<Text>>, lib: W.Platform, formatted: bool, indent: nat)
    requires forall k :: 0 <= k < |kids| ==> W.WritableName(kids[k].name, isArray) && W.Writable(kids[k].data)
    requires KidsWhole(kids, lib) && Formats(lib)
    ensures RfcItems(isArray, ItemsOf(kids, lib, formatted, indent)) <==>
            forall k :: 0 <= k < |kids| ==> KidEscaped(kids[k])
    decreases kids, 0
  {
    hide RfcItem, ItemOf, W.Writable, W.WritableName, KidEscaped, Formats, Whole, NameWhole;
    if kids != [] {
      var items, rest := ItemsOf(kids, lib, formatted, indent), kids[1..];
      KidsWholeRest(kids, lib);
      assert items[1..] == ItemsOf(rest, lib, formatted, indent);
      WrittenItemRfc(isArray, kids[0], |kids| == 1, lib, formatted, indent);
      WrittenItemsRfc(isArray, rest, lib, formatted, indent);
      assert forall k :: 0 < k < |kids| ==> kids[k] == rest[k - 1];
    }
  }

  predicate KidEscaped(kid: Node<Text>) {
    (kid.name.Some? ==> Escaped(kid.name.value)) && AllEscaped(kid.data)
  }

  lemma {:induction false} WrittenItemRfc(
      isArray: bool, kid: Node<Text>, last: bool, lib: W.Platform, formatted: bool, indent: nat)
    requires W.WritableName(kid.name, isArray) && W.Writable(kid.data) && Formats(lib)
    requires NameWhole(kid.name, lib) && Whole(kid.data, lib)
    ensures RfcItem(isArray, ItemOf(kid, last, lib, formatted, indent)) <==> KidEscaped(kid)
    decreases kid, 2
  {
    hide RfcDoc, DocOf, AllEscaped, Escaped, RfcChars, RfcBlank, CharsOf, W.IsCString, W.Writable, Accepted, Whole,
         LineEnd, Indent, CloseOf, Formats;
    ItemSpaces(kid, last, lib, formatted, indent);
    SpacesBlank(formatted, 0);
    WrittenDocRfc(kid.data, lib, formatted, indent + W.INDENT);
    if kid.name.Some? {
      CharsOfRfc(kid.name.value, lib.signed);
    }
  }

  /**
    What the writer produces is a text of RFC 8259, however it is read, if and
    only if every control character of its strings has an escape of its own.
  */
  lemma WrittenIsRfc(d: Data<Text>, lib: W.Platform, formatted: bool)
    requires W.Writable(d) && Whole(d, lib) && Formats(lib)
    ensures IsRfcText(W.Render(d, lib, formatted, 0)) <==> AllEscaped(d)
  {
    hide IsRfcText, W.Writable, W.Body, W.Completes, Whole, DocOf, SynDoc, DocText, RfcDoc, AllEscaped, Blank, RfcBlank,
         Formats;
    var doc := DocOf(d, lib, formatted, 0);
    var post := if d.Cont? && formatted then [LF] else [];
    WholeText(d, lib, formatted);
    DocOfSyn(d, lib, formatted, 0);
    WrittenDocRfc(d, lib, formatted, 0);
    LineEndBlank();
    RfcTextUnique([], doc, post);
    assert [] + (DocText(doc) + post) == DocText(doc) + post;
  }

  lemma LineEndBlank()
    ensures Blank([]) && Blank([LF]) && RfcBlank([]) && RfcBlank([LF])
  {
  }

  // ---------------------------------------------------------------------
  // Names that are misread
  // ---------------------------------------------------------------------

  /** Two numbers below a name whose only byte is refused. */
  const TWO_NAMES: Data<Text> := Cont(false, [Node(Some([0xFF]), Int(1)), Node(Some([0xFF]), Int(2))])

  /** What they are read as: one name that holds the first number. */
  const ONE_NAME: Item := Item([], Some(Name([Raw(COLON), Raw(49), Raw(COMMA)], [], [])), Num([50]), [])

  /** The opening bracket, quote, colon, 1, comma, quote, colon, 2 and the closing bracket. */
  const MISREAD: Text := [OPEN_OBJ, QUOTE, COLON, 49, COMMA, QUOTE, COLON, 50, CLOSE_OBJ]

  /** Where characters are unsigned, writing them succeeds, and the text is accepted as another tree. */
  lemma NamesMisread(lib: W.Platform, strtod: Strtod)
    requires !lib.signed
    ensures W.Writable(TWO_NAMES) && W.Completes(TWO_NAMES, lib) && W.Render(TWO_NAMES, lib, false, 0) == MISREAD
    ensures PParse(MISREAD + [0], strtod)
            == Ok(Node(None, Cont(false, [Node(Some([COLON, 49, COMMA]), Int(2))])), |MISREAD|)
  {
    hide PParse, DocText, DocOk, DocValue, W.Render, CStr;
    MisreadText(lib);
    var doc := Group(false, [ONE_NAME], false, []);
    MisreadDoc(strtod);
    TextParses([], doc, [], strtod);
    assert [] + DocText(doc) + [] + [0] == MISREAD + [0];
  }

  lemma MisreadText(lib: W.Platform)
    requires !lib.signed
    ensures W.Render(TWO_NAMES, lib, false, 0) == MISREAD
  {
    hide W.KidText, W.KidsText;
    var kids := TWO_NAMES.kids;
    MisreadKid(lib, 1, false);
    MisreadKid(lib, 2, true);
    TwoKids(kids[0], kids[1], lib, false, 2);
    assert kids == [kids[0], kids[1]];
    assert W.KidsText(kids, lib, false, 2) == [QUOTE, COLON, 49, COMMA] + [QUOTE, COLON, 50];
  }

  lemma MisreadKid(lib: W.Platform, n: nat, last: bool)
    requires !lib.signed && n < 10
    ensures W.KidText(Node(Some([0xFF]), Int(n)), last, lib, false, 2)
            == [QUOTE, COLON, ZERO + n] + if last then [] else [COMMA]
  {
    OneDigit(n);
    assert Quoted([0xFF], false) == [QUOTE];
  }

  lemma TwoKids(a: Node<Text>, b: Node<Text>, lib: W.Platform, formatted: bool, indent: nat)
    requires W.Completes(a.data, lib) && W.Completes(b.data, lib)
    ensures W.KidsText([a, b], lib, formatted, indent)
            == W.KidText(a, false, lib, formatted, indent) + W.KidText(b, true, lib, formatted, indent)
  {
    hide W.KidText, W.Completes;
    assert [a, b][1..] == [b] && [b][1..] == [];
    assert W.KidsText([b], lib, formatted, indent) == W.KidText(b, true, lib, formatted, indent);
  }

  lemma OneDigit(n: nat)
    requires n < 10
    ensures W.Digits(n) == [ZERO + n]
  {
  }

  lemma MisreadDoc(strtod: Strtod)
    ensures var doc := Group(false, [ONE_NAME], false, []);
            && DocOk(doc, strtod) && DocText(doc) == MISREAD
            && DocValue(doc, strtod) == Cont(false, [Node(Some([COLON, 49, COMMA]), Int(2))])
  {
    hide CharsOk, CharsText, CharsValue, CStr, NumOk, NumValue, ItemsText, ItemsValue, ItemsOk, ItemText;
    MisreadName();
    TwoOk(strtod);
    NoItems(false, [], strtod);
    assert ItemOk(false, ONE_NAME, strtod);
    OneItem(false, ONE_NAME, [], false, [], strtod);
    assert [ONE_NAME] + [] == [ONE_NAME];
    MisreadItem();
  }

  lemma MisreadItem()
    ensures ItemText(ONE_NAME) == [QUOTE, COLON, 49, COMMA, QUOTE, COLON, 50]
  {
    hide CharsText;
    MisreadName();
    assert NameText(ONE_NAME.name) == [QUOTE, COLON, 49, COMMA, QUOTE, COLON];
  }

  lemma MisreadName()
    ensures var chars := ONE_NAME.name.value.chars;
            CharsOk(chars) && CharsText(chars) == [COLON, 49, COMMA] == CStr(CharsValue(chars))
  {
    hide CharsOk, CharsText, CharsValue, CStr;
    OneChar(Raw(COMMA));
    FirstChar(Raw(49), [Raw(COMMA)]);
    FirstChar(Raw(COLON), [Raw(49)] + [Raw(COMMA)]);
    var chars := ONE_NAME.name.value.chars;
    assert chars == [Raw(COLON)] + ([Raw(49)] + [Raw(COMMA)]);
    CStrUnique(CharsValue(chars), 3);
    assert CharsValue(chars)[..3] == CharsValue(chars);
  }

  lemma TwoOk(strtod: Strtod)
    ensures NumOk([50], strtod) && NumValue([50], strtod) == Int(2)
  {
    DigitsScan([50], 0);
    assert [50][0..1] == [50] && [50][..0] == [];
    assert DigitsValue([50]) == 2;
  }
}
