/**
  The JSON grammar that the parser accepts, as pure functions on an untouched
  buffer. A buffer of `size` bytes is followed by a terminating NUL, and
  positions run from 0 to `size`.
*/
module JsonParser {
  import opened Common
  import opened JsonSyntax

  datatype Parsed<T> = Ok(value: T, next: nat) | Err(code: int)

  predicate IsBuffer(b: Text) {
    |b| > 0 && b[|b| - 1] == 0
  }

  function Size(b: Text): nat
    requires IsBuffer(b)
  {
    |b| - 1
  }

  /** First position at or after `i` that is not white space, or the size. */
  function SkipSpace(b: Text, i: nat): (j: nat)
    requires IsBuffer(b) && i <= Size(b)
    ensures i <= j <= Size(b)
    ensures j < Size(b) ==> !IsSpace(b[j])
    ensures forall k :: i <= k < j ==> IsSpace(b[k])
    decreases Size(b) - i
  {
    if i < Size(b) && IsSpace(b[i]) then SkipSpace(b, i + 1) else i
  }

  // ---------------------------------------------------------------------
  // Strings
  // ---------------------------------------------------------------------

  /** Between `p` and `end` every backslash starts a pair. */
  predicate Paired(b: Text, p: nat, end: nat)
    requires p <= end <= |b|
    decreases end - p
  {
    if p == end then true
    else if b[p] == BACKSLASH then p + 2 <= end && Paired(b, p + 2, end)
    else Paired(b, p + 1, end)
  }

  /** Position of the closing quote and whether an escape was seen on the way. */
  function FindQuote(b: Text, i: nat, escaped: bool): (r: Parsed<bool>)
    requires IsBuffer(b) && i <= Size(b)
    ensures r.Ok? ==> i <= r.next < Size(b) && b[r.next] == QUOTE && Paired(b, i, r.next)
    ensures r.Ok? && escaped ==> r.value
    ensures r.Ok? && !r.value ==> forall k :: i <= k < r.next ==> b[k] != BACKSLASH
    ensures r.Err? ==> r.code < 0
    decreases Size(b) - i
  {
    if b[i] == QUOTE then Ok(escaped, i)
    else if b[i] == LF then Err(STRING_UNESCAPED)
    else if b[i] == BACKSLASH then
      if i + 1 >= Size(b) then Err(END_OF_BUFFER) else FindQuote(b, i + 2, true)
    else
      if i >= Size(b) then Err(END_OF_BUFFER) else FindQuote(b, i + 1, escaped)
  }

  function HexDigit(c: Byte): (d: int)
    ensures -1 <= d < 16
  {
    if 48 <= c <= 57 then c - 48
    else if 97 <= c <= 102 then c - 87
    else if 65 <= c <= 70 then c - 55
    else -1
  }

  function HexPair(a: Byte, b: Byte): (d: int)
    ensures -1 <= d < 256
  {
    var u, l := HexDigit(a), HexDigit(b);
    if l == -1 || u == -1 then -1 else 16 * u + l
  }

  /** Bytes of a code point below 0x10000: the 2-byte and 3-byte forms. */
  function Utf8(ch: nat): (t: Text)
    requires 0x80 <= ch < 0x10000
    ensures |t| == if ch < 0x800 then 2 else 3
  {
    if ch < 0x800 then [0xC0 + ch / 64, 0x80 + ch % 64]
    else [0xE0 + ch / 4096, 0x80 + ch / 64 % 64, 0x80 + ch % 64]
  }

  /** The character that follows a backslash, other than 'u'. */
  function SimpleEscape(c: Byte): Option<Byte> {
    if c == 110 then Some(LF)
    else if c == 98 then Some(BS)
    else if c == 102 then Some(FF)
    else if c == 114 then Some(CR)
    else if c == 116 then Some(TAB)
    else if c == BACKSLASH || c == SLASH || c == QUOTE then Some(c)
    else None
  }

  datatype Unescaped = Text(text: Text) | Invalid(code: int)

  /** Value of the four digits at `p`, or an error code. */
  function UnicodeAt(b: Text, p: nat, end: nat): (r: int)
    requires p <= end <= |b|
    ensures r >= 0 ==> p + 4 <= end && 0x100 <= r < 0x10000
    ensures r >= 0 ==> forall k :: p <= k < p + 4 ==> HexDigit(b[k]) != -1
  {
    if p + 4 > end then END_OF_BUFFER
    else
      var c1, c2 := HexPair(b[p], b[p + 1]), HexPair(b[p + 2], b[p + 3]);
      if c1 > 0 && c2 > 0 then
        var ch := 256 * c1 + c2;
        if 0xD800 <= ch <= 0xDBFF then STRING_INVALID_ESC else ch
      else STRING_INVALID_ESC
  }

  lemma {:induction false} PairedSkip(b: Text, p: nat, q: nat, end: nat)
    requires p <= q <= end <= |b| && Paired(b, p, end)
    requires forall k :: p <= k < q ==> b[k] != BACKSLASH
    ensures Paired(b, q, end)
    decreases q - p
  {
    if p < q {
      PairedSkip(b, p + 1, q, end);
    }
  }

  /** The text of the string between `p` and the closing quote at `end`. */
  function Unescape(b: Text, p: nat, end: nat): (r: Unescaped)
    requires p <= end <= |b| && Paired(b, p, end)
    ensures r.Text? ==> |r.text| <= end - p
    ensures r.Invalid? ==> r.code < 0
    decreases end - p
  {
    if p == end then Text([])
    else if b[p] != BACKSLASH then
      var rest := Unescape(b, p + 1, end);
      if rest.Text? then Text([b[p]] + rest.text) else rest
    else if b[p + 1] == 117 then
      var ch := UnicodeAt(b, p + 2, end);
      if ch < 0 then Invalid(ch)
      else
        assert Paired(b, p + 6, end) by { PairedSkip(b, p + 2, p + 6, end); }
        var rest := Unescape(b, p + 6, end);
        if rest.Text? then Text(Utf8(ch) + rest.text) else rest
    else
      match SimpleEscape(b[p + 1])
      case None => Invalid(STRING_INVALID_ESC)
      case Some(c) =>
        var rest := Unescape(b, p + 2, end);
        if rest.Text? then Text([c] + rest.text) else rest
  }

  /** A string that starts at the quote at `i`; as a C string it ends at its first NUL. */
  function PString(b: Text, i: nat): (r: Parsed<Text>)
    requires IsBuffer(b) && i < Size(b)
    ensures r.Ok? ==> i + 1 < r.next <= Size(b)
    ensures r.Err? ==> r.code < 0
  {
    match FindQuote(b, i + 1, false)
    case Err(code) => Err(code)
    case Ok(escaped, to) =>
      if escaped then
        match Unescape(b, i + 1, to)
        case Invalid(code) => Err(code)
        case Text(t) => Ok(CStr(t), to + 1)
      else Ok(CStr(b[i + 1..to]), to + 1)
  }

  // ---------------------------------------------------------------------
  // Numbers and literals
  // ---------------------------------------------------------------------

  const INT64_MIN: int := -0x8000_0000_0000_0000
  const INT64_MAX: int := 0x7FFF_FFFF_FFFF_FFFF

  /** Value of a run of decimal digits. */
  function DigitsValue(s: Text): nat
    requires forall k :: 0 <= k < |s| ==> IsDigit(s[k])
  {
    if s == [] then 0 else
    assert IsDigit(s[|s| - 1]);
    10 * DigitsValue(s[..|s| - 1]) + (s[|s| - 1] - ZERO)
  }

  function DigitRun(s: Text, i: nat): (j: nat)
    requires i <= |s|
    ensures i <= j <= |s|
    ensures forall k :: i <= k < j ==> IsDigit(s[k])
    ensures j < |s| ==> !IsDigit(s[j])
    decreases |s| - i
  {
    if i < |s| && IsDigit(s[i]) then DigitRun(s, i + 1) else i
  }

  datatype IntScan = IntScan(value: int, consumed: nat, range: bool)

  /** The library conversion: an optional sign and digits; nothing is consumed without a digit. */
  function StrToLL(s: Text): IntScan {
    var start := if s != [] && (s[0] == PLUS || s[0] == MINUS) then 1 else 0;
    var stop := DigitRun(s, start);
    if stop == start then IntScan(0, 0, false)
    else
      var v := DigitsValue(s[start..stop]);
      var n: int := if s[0] == MINUS then 0 - v else v;
      IntScan(n, stop, !(INT64_MIN <= n <= INT64_MAX))
  }

  /** The floating-point conversion of the C library is a parameter. */
  datatype FloatScan = FloatScan(value: real, consumed: nat, range: bool)
  type Strtod = Text -> FloatScan

  /** End of the literal that starts at `i`. */
  function NumberEnd(b: Text, i: nat): (j: nat)
    requires IsBuffer(b) && i <= Size(b)
    ensures i <= j <= Size(b)
    ensures forall k :: i <= k < j ==> IsIntChar(b[k]) || IsFloatChar(b[k])
    ensures j < Size(b) ==> !IsIntChar(b[j]) && !IsFloatChar(b[j])
    decreases Size(b) - i
  {
    if i < Size(b) && (IsIntChar(b[i]) || IsFloatChar(b[i])) then NumberEnd(b, i + 1) else i
  }

  predicate HasFloatChar(s: Text) {
    exists k :: 0 <= k < |s| && IsFloatChar(s[k])
  }

  function PNumber(b: Text, i: nat, strtod: Strtod): (r: Parsed<Data<Text>>)
    requires IsBuffer(b) && i < Size(b) && IsIntChar(b[i])
    ensures r.Ok? ==> i < r.next <= Size(b)
    ensures r.Err? ==> r.code < 0
  {
    var j := NumberEnd(b, i);
    if HasFloatChar(b[i..j]) then
      var f := strtod(b[i..]);
      if f.range then Err(NUMBER_OVERFLOW)
      else if f.consumed != j - i then Err(NUMBER_INVALID)
      else Ok(Float(f.value), j)
    else
      var n := StrToLL(b[i..]);
      if n.range then Err(NUMBER_OVERFLOW)
      else if n.consumed != j - i then Err(NUMBER_INVALID)
      else Ok(Int(n.value), j)
  }

  predicate Matches(b: Text, i: nat, lit: Text)
    decreases lit
  {
    lit == [] || (i < |b| && b[i] == lit[0] && Matches(b, i + 1, lit[1..]))
  }

  /**
    The bound `size - len` is computed in unsigned arithmetic: on a buffer
    shorter than the literal it wraps around and the comparison decides.
  */
  function PLiteral(b: Text, i: nat, lit: Text): (r: Parsed<()>)
    requires IsBuffer(b) && i < Size(b) < SIZE_MODULUS
    requires 0 < |lit| <= 5 && 0 !in lit
    ensures r.Ok? ==> i < r.next <= Size(b)
    ensures r.Err? ==> r.code < 0
  {
    if i >= (Size(b) - |lit|) % SIZE_MODULUS then Err(END_OF_BUFFER)
    else if !Matches(b, i, lit) then Err(LITERAL_INVALID)
    else
      MatchesInside(b, i, lit);
      Ok((), i + |lit|)
  }

  lemma {:induction false} MatchesInside(b: Text, i: nat, lit: Text)
    requires IsBuffer(b) && i <= Size(b) && 0 !in lit && Matches(b, i, lit)
    ensures i + |lit| <= Size(b)
    decreases lit
  {
    if lit != [] {
      assert lit[0] in lit;
      MatchesInside(b, i + 1, lit[1..]);
    }
  }

  // ---------------------------------------------------------------------
  // Values
  // ---------------------------------------------------------------------

  function PValue(b: Text, i: nat, strtod: Strtod): (r: Parsed<Data<Text>>)
    requires IsBuffer(b) && i <= Size(b) < SIZE_MODULUS
    ensures r.Ok? ==> i < r.next <= Size(b)
    ensures r.Err? ==> r.code < 0
    decreases Size(b) - i, 2
  {
    var j := SkipSpace(b, i);
    if j == Size(b) then Err(END_OF_BUFFER)
    else if b[j] == OPEN_OBJ then PContainer(b, j, false, strtod)
    else if b[j] == OPEN_ARR then PContainer(b, j, true, strtod)
    else if b[j] == QUOTE then
      match PString(b, j)
      case Err(code) => Err(code)
      case Ok(t, next) => Ok(Str(t), next)
    else if b[j] == TRUE_TEXT[0] then
      match PLiteral(b, j, TRUE_TEXT)
      case Err(code) => Err(code)
      case Ok(_, next) => Ok(Bool(true), next)
    else if b[j] == FALSE_TEXT[0] then
      match PLiteral(b, j, FALSE_TEXT)
      case Err(code) => Err(code)
      case Ok(_, next) => Ok(Bool(false), next)
    else if b[j] == NULL_TEXT[0] then
      match PLiteral(b, j, NULL_TEXT)
      case Err(code) => Err(code)
      case Ok(_, next) => Ok(Null, next)
    else if IsIntChar(b[j]) then PNumber(b, j, strtod)
    else Err(VALUE_INVALID)
  }

  /** An object or array whose opening bracket is at `i`. */
  function PContainer(b: Text, i: nat, isArray: bool, strtod: Strtod): (r: Parsed<Data<Text>>)
    requires IsBuffer(b) && i < Size(b) < SIZE_MODULUS
    ensures r.Ok? ==> i < r.next <= Size(b)
    ensures r.Err? ==> r.code < 0
    decreases Size(b) - i, 1
  {
    var j := SkipSpace(b, i + 1);
    if j == Size(b) then Err(END_OF_BUFFER)
    else
      match PKids(b, j, isArray, strtod)
      case Err(code) => Err(code)
      case Ok(kids, next) => Ok(Cont(isArray, kids), next)
  }

  /** The name of a child, with its colon; array elements have none. */
  function PName(b: Text, i: nat, isArray: bool): (r: Parsed<Option<Text>>)
    requires IsBuffer(b) && i < Size(b)
    ensures r.Ok? ==> i <= r.next <= Size(b) && (r.value.Some? <==> !isArray)
    ensures r.Err? ==> r.code < 0
  {
    if isArray then Ok(None, i)
    else if b[i] != QUOTE then Err(OBJECT_INVALID)
    else
      match PString(b, i)
      case Err(code) => Err(code)
      case Ok(name, next) =>
        var k := SkipSpace(b, next);
        if k == Size(b) then Err(END_OF_BUFFER)
        else if b[k] != COLON then Err(OBJECT_INVALID)
        else Ok(Some(name), k + 1)
  }

  /** One child and the white space after it; `next` is where its delimiter must be. */
  function PChild(b: Text, i: nat, isArray: bool, strtod: Strtod): (r: Parsed<Node<Text>>)
    requires IsBuffer(b) && i < Size(b) < SIZE_MODULUS
    ensures r.Ok? ==> i < r.next < Size(b)
    ensures r.Err? ==> r.code < 0
    decreases Size(b) - i, 3
  {
    match PName(b, i, isArray)
    case Err(code) => Err(code)
    case Ok(name, p) =>
      match PValue(b, p, strtod)
      case Err(code) => Err(code)
      case Ok(data, q) =>
        var k := SkipSpace(b, q);
        if k == Size(b) then Err(END_OF_BUFFER) else Ok(Node(name, data), k)
  }

  function AddKids(kids: seq<Node<Text>>, rest: Parsed<seq<Node<Text>>>): Parsed<seq<Node<Text>>> {
    match rest
    case Err(code) => rest
    case Ok(more, next) => Ok(kids + more, next)
  }

  /** The children from position `i`, where white space has been skipped, to the closing bracket. */
  function PKids(b: Text, i: nat, isArray: bool, strtod: Strtod): (r: Parsed<seq<Node<Text>>>)
    requires IsBuffer(b) && i < Size(b) < SIZE_MODULUS
    ensures r.Ok? ==> i < r.next <= Size(b)
    ensures r.Err? ==> r.code < 0
    decreases Size(b) - i, 4
  {
    if b[i] == EndChar(isArray) then Ok([], i + 1)
    else
      match PChild(b, i, isArray, strtod)
      case Err(code) => Err(code)
      case Ok(kid, k) =>
        if b[k] == EndChar(isArray) then Ok([kid], k + 1)
        else if b[k] != COMMA then Err(OBJECT_INVALID)
        else
          var n := SkipSpace(b, k + 1);
          if n == Size(b) then Err(END_OF_BUFFER)
          else AddKids([kid], PKids(b, n, isArray, strtod))
  }

  /** What parsing a whole buffer yields; anything after the first value is ignored. */
  function PParse(b: Text, strtod: Strtod): (r: Parsed<Node<Text>>)
    requires IsBuffer(b) && Size(b) < SIZE_MODULUS
  {
    match PValue(b, 0, strtod)
    case Err(code) => Err(code)
    case Ok(data, next) => Ok(Node(None, data), next)
  }

  // ---------------------------------------------------------------------
  // Parsing from a position depends only on the bytes from there on
  // ---------------------------------------------------------------------

  predicate SameFrom(b: Text, b': Text, i: nat) {
    && |b| == |b'|
    && forall k :: i <= k < |b| ==> b'[k] == b[k]
  }

  lemma {:induction false} SkipSpaceFrame(b: Text, b': Text, i: nat)
    requires IsBuffer(b) && i <= Size(b) && SameFrom(b, b', i)
    ensures IsBuffer(b') && SkipSpace(b', i) == SkipSpace(b, i)
    decreases Size(b) - i
  {
    if i < Size(b) && IsSpace(b[i]) {
      SkipSpaceFrame(b, b', i + 1);
    }
  }

  lemma {:induction false} FindQuoteFrame(b: Text, b': Text, i: nat, escaped: bool)
    requires IsBuffer(b) && i <= Size(b) && SameFrom(b, b', i)
    ensures IsBuffer(b') && FindQuote(b', i, escaped) == FindQuote(b, i, escaped)
    decreases Size(b) - i
  {
    if b[i] == BACKSLASH {
      if i + 1 < Size(b) {
        FindQuoteFrame(b, b', i + 2, true);
      }
    } else if b[i] != QUOTE && i < Size(b) {
      FindQuoteFrame(b, b', i + 1, escaped);
    }
  }

  lemma {:induction false} PairedFrame(b: Text, b': Text, p: nat, end: nat)
    requires p <= end <= |b| && SameFrom(b, b', p)
    ensures Paired(b, p, end) == Paired(b', p, end)
    decreases end - p
  {
    if p < end {
      if b[p] == BACKSLASH {
        if p + 2 <= end {
          PairedFrame(b, b', p + 2, end);
        }
      } else {
        PairedFrame(b, b', p + 1, end);
      }
    }
  }

  lemma {:induction false} UnescapeFrame(b: Text, b': Text, p: nat, end: nat)
    requires p <= end <= |b| && Paired(b, p, end) && SameFrom(b, b', p)
    ensures Paired(b', p, end) && Unescape(b', p, end) == Unescape(b, p, end)
    decreases end - p
  {
    PairedFrame(b, b', p, end);
    if p < end {
      if b[p] != BACKSLASH {
        UnescapeFrame(b, b', p + 1, end);
      } else if b[p + 1] == 117 {
        if UnicodeAt(b, p + 2, end) >= 0 {
          PairedSkip(b, p + 2, p + 6, end);
          UnescapeFrame(b, b', p + 6, end);
        }
      } else {
        UnescapeFrame(b, b', p + 2, end);
      }
    }
  }

  lemma PStringFrame(b: Text, b': Text, i: nat)
    requires IsBuffer(b) && i < Size(b) && SameFrom(b, b', i)
    ensures IsBuffer(b') && PString(b', i) == PString(b, i)
  {
    FindQuoteFrame(b, b', i + 1, false);
    var q := FindQuote(b, i + 1, false);
    if q.Ok? {
      UnescapeFrame(b, b', i + 1, q.next);
      assert b'[i + 1..q.next] == b[i + 1..q.next];
    }
  }

  lemma {:induction false} NumberEndFrame(b: Text, b': Text, i: nat)
    requires IsBuffer(b) && i <= Size(b) && SameFrom(b, b', i)
    ensures IsBuffer(b') && NumberEnd(b', i) == NumberEnd(b, i)
    decreases Size(b) - i
  {
    if i < Size(b) && (IsIntChar(b[i]) || IsFloatChar(b[i])) {
      NumberEndFrame(b, b', i + 1);
    }
  }

  lemma PNumberFrame(b: Text, b': Text, i: nat, strtod: Strtod)
    requires IsBuffer(b) && i < Size(b) && IsIntChar(b[i]) && SameFrom(b, b', i)
    ensures IsBuffer(b') && PNumber(b', i, strtod) == PNumber(b, i, strtod)
  {
    NumberEndFrame(b, b', i);
    var j := NumberEnd(b, i);
    assert b'[i..j] == b[i..j];
    assert b'[i..] == b[i..];
  }

  lemma {:induction false} MatchesFrame(b: Text, b': Text, i: nat, lit: Text)
    requires SameFrom(b, b', i)
    ensures Matches(b', i, lit) == Matches(b, i, lit)
    decreases lit
  {
    if lit != [] && i < |b| {
      MatchesFrame(b, b', i + 1, lit[1..]);
    }
  }

  lemma PNameFrame(b: Text, b': Text, i: nat, isArray: bool)
    requires IsBuffer(b) && i < Size(b) && SameFrom(b, b', i)
    ensures IsBuffer(b') && PName(b', i, isArray) == PName(b, i, isArray)
  {
    PStringFrame(b, b', i);
    var s := PString(b, i);
    if s.Ok? {
      SkipSpaceFrame(b, b', s.next);
    }
  }

  lemma {:induction false} PValueFrame(b: Text, b': Text, i: nat, strtod: Strtod)
    requires IsBuffer(b) && i <= Size(b) < SIZE_MODULUS && SameFrom(b, b', i)
    ensures IsBuffer(b') && PValue(b', i, strtod) == PValue(b, i, strtod)
    decreases Size(b) - i, 2
  {
    hide PString, PNumber, PContainer, SkipSpace, Matches;
    SkipSpaceFrame(b, b', i);
    var j := SkipSpace(b, i);
    if j < Size(b) {
      if b[j] == OPEN_OBJ {
        PContainerFrame(b, b', j, false, strtod);
      } else if b[j] == OPEN_ARR {
        PContainerFrame(b, b', j, true, strtod);
      } else if b[j] == QUOTE {
        PStringFrame(b, b', j);
      } else if IsIntChar(b[j]) {
        PNumberFrame(b, b', j, strtod);
      } else {
        MatchesFrame(b, b', j, TRUE_TEXT);
        MatchesFrame(b, b', j, FALSE_TEXT);
        MatchesFrame(b, b', j, NULL_TEXT);
      }
    }
  }

  lemma {:induction false} PContainerFrame(b: Text, b': Text, i: nat, isArray: bool, strtod: Strtod)
    requires IsBuffer(b) && i < Size(b) < SIZE_MODULUS && SameFrom(b, b', i)
    ensures IsBuffer(b') && PContainer(b', i, isArray, strtod) == PContainer(b, i, isArray, strtod)
    decreases Size(b) - i, 1
  {
    SkipSpaceFrame(b, b', i + 1);
    var j := SkipSpace(b, i + 1);
    if j < Size(b) {
      PKidsFrame(b, b', j, isArray, strtod);
    }
  }

  lemma {:induction false} PChildFrame(b: Text, b': Text, i: nat, isArray: bool, strtod: Strtod)
    requires IsBuffer(b) && i < Size(b) < SIZE_MODULUS && SameFrom(b, b', i)
    ensures IsBuffer(b') && PChild(b', i, isArray, strtod) == PChild(b, i, isArray, strtod)
    decreases Size(b) - i, 3
  {
    hide PName, PValue, SkipSpace;
    PNameFrame(b, b', i, isArray);
    var name := PName(b, i, isArray);
    if name.Ok? {
      PValueFrame(b, b', name.next, strtod);
      var v := PValue(b, name.next, strtod);
      if v.Ok? {
        SkipSpaceFrame(b, b', v.next);
      }
    }
  }

  /** The delimiter after a child decides how the list goes on. */
  lemma PKidsUnfold(b: Text, i: nat, isArray: bool, strtod: Strtod)
    requires IsBuffer(b) && i < Size(b) < SIZE_MODULUS
    ensures b[i] == EndChar(isArray) ==> PKids(b, i, isArray, strtod) == Ok([], i + 1)
    ensures b[i] != EndChar(isArray) ==>
              var kid := PChild(b, i, isArray, strtod);
              PKids(b, i, isArray, strtod) ==
                if kid.Err? then Err(kid.code)
                else if b[kid.next] == EndChar(isArray) then Ok([kid.value], kid.next + 1)
                else if b[kid.next] != COMMA then Err(OBJECT_INVALID)
                else if SkipSpace(b, kid.next + 1) == Size(b) then Err(END_OF_BUFFER)
                else AddKids([kid.value], PKids(b, SkipSpace(b, kid.next + 1), isArray, strtod))
  {
    hide PChild, SkipSpace, AddKids;
  }

  lemma {:induction false} PKidsFrame(b: Text, b': Text, i: nat, isArray: bool, strtod: Strtod)
    requires IsBuffer(b) && i < Size(b) < SIZE_MODULUS && SameFrom(b, b', i)
    ensures IsBuffer(b') && PKids(b', i, isArray, strtod) == PKids(b, i, isArray, strtod)
    decreases Size(b) - i, 4
  {
    hide PChild, SkipSpace, AddKids, PKids;
    PKidsUnfold(b, i, isArray, strtod);
    PKidsUnfold(b', i, isArray, strtod);
    if b[i] != EndChar(isArray) {
      PChildFrame(b, b', i, isArray, strtod);
      var kid := PChild(b, i, isArray, strtod);
      if kid.Ok? && b[kid.next] == COMMA {
        SkipSpaceFrame(b, b', kid.next + 1);
        var n := SkipSpace(b, kid.next + 1);
        if n < Size(b) {
          PKidsFrame(b, b', n, isArray, strtod);
        }
      }
    }
  }

  // ---------------------------------------------------------------------
  // Unicode escapes
  // ---------------------------------------------------------------------

  /** Decoding of one UTF-8 sequence as in section 3 of RFC 3629; -1 when it is not one. */
  function Utf8Decode(t: Text): int {
    if |t| == 1 && t[0] < 0x80 then t[0]
    else if |t| == 2 && 0xC0 <= t[0] < 0xE0 && 0x80 <= t[1] < 0xC0 then
      var v: int := 64 * (t[0] as int - 0xC0) + (t[1] as int - 0x80);
      if v >= 0x80 then v else -1
    else if |t| == 3 && 0xE0 <= t[0] < 0xF0 && 0x80 <= t[1] < 0xC0 && 0x80 <= t[2] < 0xC0 then
      var v: int := 4096 * (t[0] as int - 0xE0) + 64 * (t[1] as int - 0x80) + (t[2] as int - 0x80);
      if v >= 0x800 && !(0xD800 <= v <= 0xDFFF) then v else -1
    else -1
  }

  lemma Utf8RoundTrip(ch: nat)
    requires 0x80 <= ch < 0x10000
    ensures Utf8Decode(Utf8(ch)) == ch <==> !(0xD800 <= ch <= 0xDFFF)
  {
    var t := Utf8(ch);
    if ch < 0x800 {
      assert t[0] == 0xC0 + ch / 64 < 0xE0;
      assert 64 * (ch / 64) + ch % 64 == ch;
    } else {
      var hi, mid, lo := ch / 4096, ch / 64 % 64, ch % 64;
      assert hi < 16;
      assert ch / 64 == 64 * hi + mid;
      assert 4096 * hi + 64 * mid + lo == ch;
      assert t == [0xE0 + hi, 0x80 + mid, 0x80 + lo];
    }
  }

  /**
    An accepted escape becomes the UTF-8 form of its code point, exactly unless
    it names a low surrogate: those pass the parser's check, but section 3 of
    RFC 3629 does not allow their encoding.
  */
  lemma AcceptedEscapeIsUtf8(b: Text, p: nat, end: nat)
    requires p <= end <= |b| && UnicodeAt(b, p, end) >= 0
    ensures var ch := UnicodeAt(b, p, end);
            Utf8Decode(Utf8(ch)) == ch <==> !(0xDC00 <= ch <= 0xDFFF)
    ensures var ch := UnicodeAt(b, p, end);
            ch == 4096 * HexDigit(b[p]) + 256 * HexDigit(b[p + 1]) + 16 * HexDigit(b[p + 2]) + HexDigit(b[p + 3])
  {
    hide Utf8Decode, Utf8;
    Utf8RoundTrip(UnicodeAt(b, p, end));
  }
}
