/**
  Whatever the parser accepts is the text of a document, read off the buffer.
*/
module JsonSound {
  import opened Common
  import opened JsonSyntax
  import opened JsonParser
  import opened JsonGrammar
  import opened JsonAccepts

  lemma Slices(b: Text, i: nat, j: nat, k: nat)
    requires i <= j <= k <= |b|
    ensures b[i..j] + b[j..k] == b[i..k]
  {
  }

  // ---------------------------------------------------------------------
  // Strings
  // ---------------------------------------------------------------------

  /** The characters between a position and the closing quote. */
  lemma {:induction false} ReadChars(b: Text, i: nat, end: nat, escaped: bool) returns (chars: seq<Ch>)
    requires IsBuffer(b) && i <= Size(b)
    requires var q := FindQuote(b, i, escaped); q.Ok? && q.next == end
    requires Unescape(b, i, end).Text?
    ensures CharsOk(chars) && CharsText(chars) == b[i..end]
    ensures CharsValue(chars) == Unescape(b, i, end).text
    decreases end - i
  {
    hide UnicodeAt, Utf8, SimpleEscape, CharsText, CharsValue, ChOk;
    if i == end {
      chars := [];
      NoChars();
    } else if b[i] != BACKSLASH {
      var rest := ReadChars(b, i + 1, end, escaped);
      chars := [Raw(b[i])] + rest;
      RawOk(b[i]);
      FirstChar(Raw(b[i]), rest);
    } else if b[i + 1] == 117 {
      var hex := b[i + 2..i + 6];
      ReadUnicode(b, i, end, escaped);
      var rest := ReadChars(b, i + 6, end, true);
      chars := [Uni(hex)] + rest;
      UniOk(hex);
      FirstChar(Uni(hex), rest);
    } else {
      var rest := ReadChars(b, i + 2, end, true);
      chars := [Esc(b[i + 1])] + rest;
      EscOk(b[i + 1]);
      FirstChar(Esc(b[i + 1]), rest);
    }
  }

  lemma NoChars()
    ensures CharsOk([]) && CharsText([]) == [] && CharsValue([]) == []
  {
  }

  lemma RawOk(c: Byte)
    requires c != QUOTE && c != BACKSLASH && c != LF
    ensures ChOk(Raw(c)) && ChValue(Raw(c)) == [c]
  {
  }

  lemma EscOk(letter: Byte)
    requires SimpleEscape(letter).Some?
    ensures ChOk(Esc(letter)) && ChValue(Esc(letter)) == [SimpleEscape(letter).value]
  {
  }

  lemma UniOk(hex: Text)
    requires |hex| == 4 && UnicodeAt(hex, 0, 4) >= 0
    ensures ChOk(Uni(hex)) && ChValue(Uni(hex)) == Utf8(UnicodeAt(hex, 0, 4))
  {
  }

  lemma FirstChar(ch: Ch, rest: seq<Ch>)
    requires ChOk(ch) && CharsOk(rest)
    ensures CharsOk([ch] + rest)
    ensures CharsText([ch] + rest) == ChText(ch) + CharsText(rest)
    ensures CharsValue([ch] + rest) == ChValue(ch) + CharsValue(rest)
  {
    assert ([ch] + rest)[1..] == rest;
  }

  /** An accepted escape of four digits. */
  lemma ReadUnicode(b: Text, i: nat, end: nat, escaped: bool)
    requires IsBuffer(b) && i + 2 <= end < Size(b) && b[i] == BACKSLASH && b[i + 1] == 117 && Paired(b, i, end)
    requires UnicodeAt(b, i + 2, end) >= 0
    ensures i + 6 <= end && Paired(b, i + 6, end)
    ensures UnicodeAt(b[i + 2..i + 6], 0, 4) == UnicodeAt(b, i + 2, end)
    ensures FindQuote(b, i, escaped) == FindQuote(b, i + 6, true)
  {
    var hex := b[i + 2..i + 6];
    UnicodeHere(b, i + 2, end, hex);
    HexIsPlain(hex);
    forall k | i + 2 <= k < i + 6
      ensures b[k] != QUOTE && b[k] != LF && b[k] != BACKSLASH
    {
      assert b[k] == hex[k - (i + 2)];
    }
    PairedSkip(b, i + 2, i + 6, end);
    ScanOver(b, i + 2, i + 6, end, true);
  }

  /** Without a backslash a string is decoded as it is. */
  lemma {:induction false} PlainUnescape(b: Text, i: nat, end: nat)
    requires i <= end <= |b| && forall k :: i <= k < end ==> b[k] != BACKSLASH
    ensures Paired(b, i, end) && Unescape(b, i, end) == Unescaped.Text(b[i..end])
    decreases end - i
  {
    if i < end {
      PlainUnescape(b, i + 1, end);
      assert b[i..end] == [b[i]] + b[i + 1..end];
    }
  }

  lemma QuotedSlice(b: Text, i: nat, end: nat)
    requires i < end < |b|
    ensures b[i..end + 1] == [b[i]] + (b[i + 1..end] + [b[end]])
  {
    assert b[i + 1..end] + [b[end]] == b[i + 1..end + 1];
    assert b[i..end + 1] == [b[i]] + b[i + 1..end + 1];
  }

  lemma ReadString(b: Text, i: nat) returns (chars: seq<Ch>)
    requires IsBuffer(b) && i < Size(b) && b[i] == QUOTE && PString(b, i).Ok?
    ensures CharsOk(chars) && QuoteText(chars) == b[i..PString(b, i).next]
    ensures PString(b, i).value == CStr(CharsValue(chars))
  {
    hide FindQuote, Unescape, Paired, CharsText, CharsValue, CharsOk, CStr;
    var q := FindQuote(b, i + 1, false);
    var end := q.next;
    if !q.value {
      PlainUnescape(b, i + 1, end);
    }
    chars := ReadChars(b, i + 1, end, false);
    QuotedSlice(b, i, end);
  }

  // ---------------------------------------------------------------------
  // Numbers and literals
  // ---------------------------------------------------------------------

  /** What was not consumed does not matter. */
  lemma StrToLLPrefix(s: Text, n: nat)
    requires 0 < n <= |s| && StrToLL(s).consumed == n
    ensures StrToLL(s[..n]) == StrToLL(s)
  {
    hide DigitsValue;
    var text := s[..n];
    assert text[0] == s[0];
    var start := if s[0] == PLUS || s[0] == MINUS then 1 else 0;
    assert DigitRun(s, start) == n;
    var stop := DigitRun(text, start);
    assert stop == n;
    assert text[start..n] == s[start..n];
  }

  lemma ReadNumber(b: Text, i: nat, strtod: Strtod)
    requires IsBuffer(b) && i < Size(b) && IsIntChar(b[i]) && Local(strtod) && PNumber(b, i, strtod).Ok?
    ensures var r := PNumber(b, i, strtod);
            var text := b[i..r.next];
            NumOk(text, strtod) && r.value == NumValue(text, strtod) && !IsNumberChar(b[r.next])
  {
    hide StrToLL, HasFloatChar;
    var j := NumberEnd(b, i);
    var text, rest := b[i..j], b[j..];
    assert j > i;
    forall k | 0 <= k < |text|
      ensures IsNumberChar(text[k])
    {
      assert text[k] == b[i + k];
    }
    assert !IsNumberChar(b[j]);
    assert b[i..] == text + rest && rest[0] == b[j];
    assert NumberRun(text);
    if HasFloatChar(text) {
      assert LocalAt(strtod, text);
      assert Scan(strtod, text + rest) == Scan(strtod, text);
    } else {
      StrToLLPrefix(b[i..], j - i);
      assert b[i..][..j - i] == text;
    }
  }

  lemma {:induction false} MatchedText(b: Text, i: nat, lit: Text)
    requires Matches(b, i, lit) && i + |lit| <= |b|
    ensures b[i..i + |lit|] == lit
    decreases lit
  {
    if lit != [] {
      MatchedText(b, i + 1, lit[1..]);
      assert b[i..i + |lit|] == [b[i]] + b[i + 1..i + 1 + |lit[1..]|];
    }
  }

  lemma ReadLiteral(b: Text, i: nat, lit: Text)
    requires IsBuffer(b) && i < Size(b) < SIZE_MODULUS && 0 < |lit| <= 5 && 0 !in lit && PLiteral(b, i, lit).Ok?
    ensures PLiteral(b, i, lit).next == i + |lit| < Size(b) && b[i..i + |lit|] == lit
  {
    hide Matches;
    MatchesInside(b, i, lit);
    MatchedText(b, i, lit);
    assert (Size(b) - |lit|) % SIZE_MODULUS == Size(b) - |lit|;
  }

  // ---------------------------------------------------------------------
  // Values
  // ---------------------------------------------------------------------

  lemma SkippedIsBlank(b: Text, i: nat)
    requires IsBuffer(b) && i <= Size(b)
    ensures Blank(b[i..SkipSpace(b, i)])
  {
    var t := b[i..SkipSpace(b, i)];
    forall k | 0 <= k < |t|
      ensures IsSpace(t[k])
    {
      assert t[k] == b[i + k];
    }
  }

  /** The document at a position, after white space. */
  lemma {:induction false} ReadValue(b: Text, i: nat, strtod: Strtod) returns (doc: Doc)
    requires IsBuffer(b) && i <= Size(b) < SIZE_MODULUS && Local(strtod) && PValue(b, i, strtod).Ok?
    ensures var r := PValue(b, i, strtod);
            && DocOk(doc, strtod) && DocValue(doc, strtod) == r.value
            && SkipSpace(b, i) < r.next && b[SkipSpace(b, i)..r.next] == DocText(doc) && Delimited(b, r.next, doc)
    decreases Size(b) - i, 2
  {
    hide PString, PNumber, PContainer, SkipSpace, PLiteral, QuoteText, ItemsText, NumOk, CharsOk, Local, CharsValue,
         NumValue, CStr;
    var j := SkipSpace(b, i);
    var r := PValue(b, i, strtod);
    if b[j] == OPEN_OBJ || b[j] == OPEN_ARR {
      doc := ReadGroup(b, j, b[j] == OPEN_ARR, strtod);
    } else if b[j] == QUOTE {
      var chars := ReadString(b, j);
      doc := Quote(chars);
    } else if b[j] == TRUE_TEXT[0] {
      ReadLiteral(b, j, TRUE_TEXT);
      doc := Lit(Bool(true));
    } else if b[j] == FALSE_TEXT[0] {
      ReadLiteral(b, j, FALSE_TEXT);
      doc := Lit(Bool(false));
    } else if b[j] == NULL_TEXT[0] {
      ReadLiteral(b, j, NULL_TEXT);
      doc := Lit(Null);
    } else {
      ReadNumber(b, j, strtod);
      doc := Num(b[j..r.next]);
    }
  }

  lemma {:induction false} ReadGroup(b: Text, i: nat, isArray: bool, strtod: Strtod) returns (doc: Doc)
    requires IsBuffer(b) && i < Size(b) < SIZE_MODULUS && Local(strtod) && b[i] == OpenChar(isArray)
    requires PContainer(b, i, isArray, strtod).Ok?
    ensures var r := PContainer(b, i, isArray, strtod);
            doc.Group? && DocOk(doc, strtod) && DocValue(doc, strtod) == r.value && b[i..r.next] == DocText(doc)
    decreases Size(b) - i, 1
  {
    hide PKids, SkipSpace, ItemsText, ItemsOk, ItemsValue, CloseOk, Local;
    var items, trailing, close := ReadItems(b, i + 1, isArray, strtod);
    doc := Group(isArray, items, trailing, close);
    var n := PContainer(b, i, isArray, strtod).next;
    assert b[i..n] == [b[i]] + b[i + 1..n];
  }

  /** These items are what was parsed as a list behind `p`. */
  ghost predicate ReadAs(
      b: Text, p: nat, isArray: bool, items: seq<Item>, trailing: bool, close: Text, r: Parsed<seq<Node<Text>>>,
      strtod: Strtod)
  {
    && r.Ok? && ItemsOk(isArray, items, strtod) && CloseOk(items, trailing, close)
    && ItemsValue(isArray, items, strtod) == r.value
    && p <= r.next <= |b| && b[p..r.next] == ItemsText(isArray, items, trailing, close)
  }

  /** The items up to the closing bracket, with the white space before them. */
  lemma {:induction false} ReadItems(b: Text, p: nat, isArray: bool, strtod: Strtod)
    returns (items: seq<Item>, trailing: bool, close: Text)
    requires IsBuffer(b) && p <= Size(b) < SIZE_MODULUS && Local(strtod)
    requires SkipSpace(b, p) < Size(b) && PKids(b, SkipSpace(b, p), isArray, strtod).Ok?
    ensures ReadAs(b, p, isArray, items, trailing, close, PKids(b, SkipSpace(b, p), isArray, strtod), strtod)
    decreases Size(b) - SkipSpace(b, p), 5
  {
    hide PChild, SkipSpace, PKids, ItemText, Blank, Local, ItemOk, NameOk, DocOk, NameValue, DocValue, AddKids, EndChar,
         ReadAs;
    var j := SkipSpace(b, p);
    SkippedIsBlank(b, p);
    PKidsUnfold(b, j, isArray, strtod);
    if b[j] == EndChar(isArray) {
      items, trailing, close := [], false, b[p..j];
      ReadNone(b, p, isArray, j, strtod);
    } else {
      var kid := PChild(b, j, isArray, strtod);
      var item := ReadItem(b, p, isArray, strtod);
      var k := kid.next;
      if b[k] == EndChar(isArray) {
        items, trailing, close := [item], false, [];
        ReadLast(b, p, isArray, item, k, strtod);
      } else {
        var tail := PKids(b, SkipSpace(b, k + 1), isArray, strtod);
        AddKidsOk([kid.value], tail);
        var rest, t, c := ReadItems(b, k + 1, isArray, strtod);
        items, trailing, close := [item] + rest, t || rest == [], c;
        ReadMore(b, p, isArray, item, k, rest, t, c, tail, strtod);
      }
    }
  }

  lemma ReadNone(b: Text, p: nat, isArray: bool, j: nat, strtod: Strtod)
    requires p <= j < |b| && Blank(b[p..j]) && b[j] == EndChar(isArray)
    ensures ReadAs(b, p, isArray, [], false, b[p..j], Ok([], j + 1), strtod)
  {
    hide ItemsText, ItemsOk, ItemsValue, Blank;
    NoItems(isArray, b[p..j], strtod);
    SliceAdd(b, p, j);
  }

  lemma ReadLast(b: Text, p: nat, isArray: bool, item: Item, k: nat, strtod: Strtod)
    requires p <= k < |b| && b[k] == EndChar(isArray) && ItemOk(isArray, item, strtod)
    requires NameOk(item.name, isArray) && DocOk(item.value, strtod) && b[p..k] == ItemText(item)
    ensures ReadAs(b, p, isArray, [item], false, [],
                   Ok([Node(NameValue(item.name), DocValue(item.value, strtod))], k + 1), strtod)
  {
    hide ItemsText, ItemsOk, ItemsValue, ItemOk, NameOk, DocOk, NameValue, DocValue, ItemText, CloseOk;
    var kid := Node(NameValue(item.name), DocValue(item.value, strtod));
    assert [item] + [] == [item] && [kid] + [] == [kid];
    NoItems(isArray, [], strtod);
    OneItem(isArray, item, [], false, [], strtod);
    CloseLast(item);
    SliceAdd(b, p, k);
  }

  lemma ReadMore(
      b: Text, p: nat, isArray: bool, item: Item, k: nat, rest: seq<Item>, t: bool, c: Text,
      tail: Parsed<seq<Node<Text>>>, strtod: Strtod)
    requires p <= k < |b| && b[k] == COMMA && ItemOk(isArray, item, strtod)
    requires NameOk(item.name, isArray) && DocOk(item.value, strtod) && b[p..k] == ItemText(item)
    requires ReadAs(b, k + 1, isArray, rest, t, c, tail, strtod)
    ensures ReadAs(b, p, isArray, [item] + rest, t || rest == [], c,
                   Ok([Node(NameValue(item.name), DocValue(item.value, strtod))] + tail.value, tail.next), strtod)
  {
    hide ItemsText, ItemsOk, ItemsValue, ItemOk, NameOk, DocOk, NameValue, DocValue, ItemText, CloseOk;
    OneItem(isArray, item, rest, t || rest == [], c, strtod);
    TrailingIrrelevant(isArray, rest, t, t || rest == [], c);
    CloseMore(item, rest, t, c);
    SliceComma(b, p, k, tail.next);
  }

  lemma SliceAdd(b: Text, p: nat, k: nat)
    requires p <= k < |b|
    ensures b[p..k + 1] == b[p..k] + [b[k]]
  {
  }

  lemma SliceComma(b: Text, p: nat, k: nat, n: nat)
    requires p <= k < n <= |b|
    ensures b[p..n] == b[p..k] + ([b[k]] + b[k + 1..n])
  {
  }

  lemma CloseLast(item: Item)
    ensures CloseOk([item], false, [])
  {
  }

  lemma CloseMore(item: Item, rest: seq<Item>, t: bool, c: Text)
    requires CloseOk(rest, t, c)
    ensures CloseOk([item] + rest, t || rest == [], c)
  {
  }

  lemma AddKidsOk(kids: seq<Node<Text>>, r: Parsed<seq<Node<Text>>>)
    ensures AddKids(kids, r).Ok? <==> r.Ok?
    ensures r.Ok? ==> AddKids(kids, r) == Ok(kids + r.value, r.next)
  {
  }

  lemma TrailingIrrelevant(isArray: bool, items: seq<Item>, t: bool, t': bool, close: Text)
    requires items == [] || t == t'
    ensures ItemsText(isArray, items, t, close) == ItemsText(isArray, items, t', close)
  {
  }

  lemma OneItem(isArray: bool, item: Item, rest: seq<Item>, trailing: bool, close: Text, strtod: Strtod)
    requires ItemOk(isArray, item, strtod) && ItemsOk(isArray, rest, strtod)
    ensures var items := [item] + rest;
            && ItemsOk(isArray, items, strtod)
            && NameOk(item.name, isArray) && DocOk(item.value, strtod)
            && ItemsValue(isArray, items, strtod)
               == [Node(NameValue(item.name), DocValue(item.value, strtod))] + ItemsValue(isArray, rest, strtod)
            && ItemsText(isArray, items, trailing, close) ==
                 if rest == [] && !trailing then ItemText(item) + [EndChar(isArray)]
                 else ItemText(item) + ([COMMA] + ItemsText(isArray, rest, trailing, close))
  {
    hide ItemText, ItemOk;
    var items := [item] + rest;
    assert items[0] == item && items[1..] == rest;
    FirstItem(isArray, items, trailing, close, strtod);
  }

  /** An item with the white space before it, up to its delimiter. */
  lemma {:induction false} ReadItem(b: Text, p: nat, isArray: bool, strtod: Strtod) returns (item: Item)
    requires IsBuffer(b) && p <= Size(b) < SIZE_MODULUS && Local(strtod) && SkipSpace(b, p) < Size(b)
    requires PChild(b, SkipSpace(b, p), isArray, strtod).Ok?
    ensures var r := PChild(b, SkipSpace(b, p), isArray, strtod);
            && ItemOk(isArray, item, strtod) && NameOk(item.name, isArray) && DocOk(item.value, strtod)
            && r.value == Node(NameValue(item.name), DocValue(item.value, strtod))
            && p <= r.next && b[p..r.next] == ItemText(item)
    decreases Size(b) - SkipSpace(b, p), 3
  {
    hide PName, PValue, SkipSpace, DocText, NameText, Local, Blank, DocOk, NameOk, DocValue, NameValue, Delimited;
    var j := SkipSpace(b, p);
    var nm := PName(b, j, isArray);
    var doc := ReadValue(b, nm.next, strtod);
    var v := SkipSpace(b, nm.next);
    var name := ReadName(b, j, isArray, v);
    var r := PValue(b, nm.next, strtod).next;
    var k := SkipSpace(b, r);
    SkippedIsBlank(b, p);
    SkippedIsBlank(b, r);
    item := Item(b[p..j], name, doc, b[r..k]);
    assert b[p..k] == b[p..j] + (b[j..v] + (b[v..r] + b[r..k])) by {
      Slices(b, v, r, k);
      Slices(b, j, v, k);
      Slices(b, p, j, k);
    }
  }

  /** The name of a child up to the start of its value at `v`. */
  lemma ReadName(b: Text, j: nat, isArray: bool, v: nat) returns (name: Option<Name>)
    requires IsBuffer(b) && j < Size(b) && !IsSpace(b[j]) && PName(b, j, isArray).Ok?
    requires v == SkipSpace(b, PName(b, j, isArray).next)
    ensures NameOk(name, isArray) && NameValue(name) == PName(b, j, isArray).value
    ensures j <= v && NameText(name) == b[j..v]
  {
    hide PName, SkipSpace, NameOk, NameValue, NameText, IsSpace;
    if isArray {
      name := None;
      SkipNothing(b, j);
      NoNameRead(b, j);
    } else {
      var l := ReadQuotedName(b, j, v);
      name := Some(l);
    }
  }

  lemma NoNameRead(b: Text, j: nat)
    requires IsBuffer(b) && j < Size(b)
    ensures PName(b, j, true) == Ok(None, j) && NameOk(None, true)
    ensures NameValue(None) == None && NameText(None) == b[j..j]
  {
  }

  lemma ReadQuotedName(b: Text, j: nat, v: nat) returns (name: Name)
    requires IsBuffer(b) && j < Size(b) && PName(b, j, false).Ok? && v == SkipSpace(b, PName(b, j, false).next)
    ensures NameOk(Some(name), false) && NameValue(Some(name)) == PName(b, j, false).value
    ensures j <= v && NameText(Some(name)) == b[j..v]
  {
    hide PString, SkipSpace, CharsValue, CharsOk, QuoteText, CStr, IsSpace, Blank;
    var chars := ReadString(b, j);
    var n := PString(b, j).next;
    var k := SkipSpace(b, n);
    SkippedIsBlank(b, n);
    SkippedIsBlank(b, k + 1);
    name := Name(chars, b[n..k], b[k + 1..v]);
    NameSlices(b, j, n, k, v);
  }

  lemma NameSlices(b: Text, j: nat, n: nat, k: nat, v: nat)
    requires j <= n <= k < v <= |b|
    ensures b[j..v] == b[j..n] + (b[n..k] + [b[k]] + b[k + 1..v])
  {
    assert b[n..k] + [b[k]] == b[n..k + 1];
    assert b[n..k + 1] + b[k + 1..v] == b[n..v];
  }

  lemma SkipNothing(b: Text, j: nat)
    requires IsBuffer(b) && j < Size(b) && !IsSpace(b[j])
    ensures SkipSpace(b, j) == j
  {
  }

  // ---------------------------------------------------------------------
  // The accepted language
  // ---------------------------------------------------------------------

  /** Some document with this value lies at the start of the buffer, after white space, and ends at `n`. */
  ghost predicate StartsWith(b: Text, doc: Doc, v: Data<Text>, n: nat, strtod: Strtod) {
    && IsBuffer(b) && DocOk(doc, strtod) && DocValue(doc, strtod) == v
    && At(b, SkipSpace(b, 0), DocText(doc)) && n == SkipSpace(b, 0) + |DocText(doc)| && Delimited(b, n, doc)
  }

  /** The parser accepts a buffer, with a value and an end, exactly if a document lies there. */
  lemma AcceptedExactly(b: Text, v: Data<Text>, n: nat, strtod: Strtod)
    requires IsBuffer(b) && Size(b) < SIZE_MODULUS && Local(strtod)
    ensures PParse(b, strtod) == Ok(Node(None, v), n) <==> exists doc :: StartsWith(b, doc, v, n, strtod)
  {
    hide PValue, DocText, DocOk, DocValue, Local, Delimited, SkipSpace;
    var i := SkipSpace(b, 0);
    if PParse(b, strtod) == Ok(Node(None, v), n) {
      var doc := ReadValue(b, 0, strtod);
      assert b[i..n] == DocText(doc);
      assert StartsWith(b, doc, v, n, strtod);
    }
    if doc :| StartsWith(b, doc, v, n, strtod) {
      DocHead(doc, strtod);
      AtHead(b, i, DocText(doc));
      DelimitedNumber(b, n, doc);
      DocParses(b, i, doc, strtod);
      GapSkip(b, 0, i);
      PValueSkips(b, 0, i, strtod);
    }
  }

  lemma DelimitedNumber(b: Text, n: nat, doc: Doc)
    requires IsBuffer(b) && n <= Size(b) && Delimited(b, n, doc)
    ensures doc.Num? ==> !IsNumberChar(b[n])
  {
  }
}
