/**
  Writing a tree: the text it renders to, and the three sinks that count it,
  store it in a bounded buffer or append it to a file.
*/
module JsonWriter {
  import opened Common
  import opened JsonSyntax
  import opened JsonEscape

  const INDENT: nat := 2

  // ---------------------------------------------------------------------
  // The rendered text
  // ---------------------------------------------------------------------

  function Digits(n: nat): (t: Text)
    ensures |t| > 0
    ensures forall k :: 0 <= k < |t| ==> IsDigit(t[k])
  {
    if n < 10 then [ZERO + n] else Digits(n / 10) + [ZERO + n % 10]
  }

  function Decimal(i: int): (t: Text)
    ensures |t| > 0
    ensures forall k :: 0 <= k < |t| ==> IsIntChar(t[k])
  {
    if i < 0 then [MINUS] + Digits(-i) else Digits(i)
  }

  const SCRATCH_SIZE: nat := 32

  /** Whether characters are signed, and what the C library prints for a floating-point number. */
  datatype Platform = Platform(signed: bool, show: real -> Text)

  function Pow10(k: nat): nat {
    if k == 0 then 1 else 10 * Pow10(k - 1)
  }

  lemma {:induction false} DigitsFit(n: nat, k: nat)
    requires n < Pow10(k) && k > 0
    ensures |Digits(n)| <= k
    decreases k
  {
    if n >= 10 {
      DigitsFit(n / 10, k - 1);
    }
  }

  /** A 64-bit integer has at most 19 digits and a sign. */
  lemma DecimalFits(i: int)
    requires IsInt64(i)
    ensures |Decimal(i)| <= 20
  {
    assert Pow10(4) == 10_000;
    assert Pow10(8) == 100_000_000;
    assert Pow10(12) == 1_000_000_000_000;
    assert Pow10(16) == 10_000_000_000_000_000;
    DigitsFit(if i < 0 then -i else i, 19);
  }

  function Spaces(n: nat): (t: Text)
    ensures |t| == n && forall k :: 0 <= k < n ==> t[k] == SPACE
  {
    seq(n, _ => SPACE)
  }

  predicate IsCString(s: Text) {
    0 !in s
  }

  predicate IsInt64(i: int) {
    -0x8000_0000_0000_0000 <= i < 0x8000_0000_0000_0000
  }

  predicate WritableName(name: Option<Text>, isArray: bool) {
    if isArray then name == None else name.Some? && IsCString(name.value)
  }

  /** Trees as the library builds them: 64-bit integers, C strings, and names exactly below objects. */
  predicate Writable(d: Data<Text>)
    decreases d
  {
    match d
    case Int(i) => IsInt64(i)
    case Str(s) => IsCString(s)
    case Cont(isArray, kids) =>
      forall k :: 0 <= k < |kids| ==> WritableName(kids[k].name, isArray) && Writable(kids[k].data)
    case _ => true
  }

  /**
    Every number's text fits the scratch buffer and every string is accepted;
    writing stops at the first value that is not written completely. Names do
    not count: a byte that is refused in a name ends just the name.
  */
  predicate Completes(d: Data<Text>, lib: Platform)
    decreases d
  {
    match d
    case Float(x) => |lib.show(x)| < SCRATCH_SIZE
    case Str(s) => Accepted(s, lib.signed)
    case Cont(_, kids) => forall k :: 0 <= k < |kids| ==> Completes(kids[k].data, lib)
    case _ => true
  }

  predicate KidsComplete(kids: seq<Node<Text>>, lib: Platform) {
    forall k :: 0 <= k < |kids| ==> Completes(kids[k].data, lib)
  }

  /** The error of the first such value, or none. */
  function Failure(d: Data<Text>, lib: Platform): (code: int)
    ensures code == JSON_OK || code == BUFFER_OVERFLOW || code == INVALID_UNICODE
    decreases d
  {
    match d
    case Float(x) => if |lib.show(x)| < SCRATCH_SIZE then JSON_OK else BUFFER_OVERFLOW
    case Str(s) => if Accepted(s, lib.signed) then JSON_OK else INVALID_UNICODE
    case Cont(_, kids) => FirstFailure(kids, lib)
    case _ => JSON_OK
  }

  function FirstFailure(kids: seq<Node<Text>>, lib: Platform): (code: int)
    ensures code == JSON_OK || code == BUFFER_OVERFLOW || code == INVALID_UNICODE
    decreases kids
  {
    if kids == [] then JSON_OK
    else if KidFailure(kids[0], lib) != JSON_OK then KidFailure(kids[0], lib)
    else FirstFailure(kids[1..], lib)
  }

  function KidFailure(kid: Node<Text>, lib: Platform): (code: int)
    ensures code == JSON_OK || code == BUFFER_OVERFLOW || code == INVALID_UNICODE
    decreases kid
  {
    Failure(kid.data, lib)
  }

  lemma {:induction false} FailureExact(d: Data<Text>, lib: Platform)
    ensures Failure(d, lib) == JSON_OK <==> Completes(d, lib)
    decreases d
  {
    if d.Cont? {
      FirstFailureExact(d.kids, lib);
    }
  }

  lemma {:induction false} FirstFailureExact(kids: seq<Node<Text>>, lib: Platform)
    ensures FirstFailure(kids, lib) == JSON_OK <==> KidsComplete(kids, lib)
    decreases kids
  {
    hide Failure, Completes;
    if kids != [] {
      FailureOfKid(kids[0], lib);
      FirstFailureExact(kids[1..], lib);
      assert forall k :: 0 < k < |kids| ==> kids[k] == kids[1..][k - 1];
    }
  }

  lemma {:induction false} FailureOfKid(kid: Node<Text>, lib: Platform)
    ensures Failure(kid.data, lib) == JSON_OK <==> Completes(kid.data, lib)
    decreases kid
  {
    FailureExact(kid.data, lib);
  }

  /** The first child that is not written completely tells the error. */
  lemma {:induction false} FirstFailureAt(kids: seq<Node<Text>>, k: nat, lib: Platform)
    requires k < |kids| && KidsComplete(kids[..k], lib) && Failure(kids[k].data, lib) != JSON_OK
    ensures FirstFailure(kids, lib) == Failure(kids[k].data, lib)
  {
    hide Failure, Completes;
    if k > 0 {
      assert kids[..k][0] == kids[0];
      FailureExact(kids[0].data, lib);
      assert kids[1..][..k - 1] == kids[..k][1..];
      FirstFailureAt(kids[1..], k - 1, lib);
    }
  }

  function NumberText(d: Data<Text>, lib: Platform): Text
    requires d.Int? || d.Float?
  {
    if d.Int? then Decimal(d.i) else lib.show(d.d)
  }

  function NameText(name: Option<Text>, lib: Platform, formatted: bool): Text {
    match name
    case None => []
    case Some(s) => Quoted(s, lib.signed) + [COLON] + (if formatted then [SPACE] else [])
  }

  function Separator(last: bool, formatted: bool): Text {
    (if last then [] else [COMMA]) + (if formatted then [LF] else [])
  }

  /**
    The text of a value, without the line end that follows a formatted root. It
    ends with the first value that is not written completely.
  */
  function Body(d: Data<Text>, lib: Platform, formatted: bool, indent: nat): Text
    decreases d
  {
    match d
    case Null => NULL_TEXT
    case Bool(v) => if v then TRUE_TEXT else FALSE_TEXT
    case Int(i) => Decimal(i)
    case Float(x) => if |lib.show(x)| < SCRATCH_SIZE then lib.show(x) else []
    case Str(s) => Quoted(s, lib.signed)
    case Cont(isArray, kids) =>
      [OpenChar(isArray)] + (if formatted then [LF] else [])
      + KidsText(kids, lib, formatted, indent + INDENT)
      + if KidsComplete(kids, lib) then (if formatted && indent > 0 then Spaces(indent) else []) + [EndChar(isArray)]
        else []
  }

  function KidsText(kids: seq<Node<Text>>, lib: Platform, formatted: bool, indent: nat): Text
    decreases kids
  {
    if kids == [] then []
    else KidText(kids[0], |kids| == 1, lib, formatted, indent)
         + if Completes(kids[0].data, lib) then KidsText(kids[1..], lib, formatted, indent) else []
  }

  function KidText(kid: Node<Text>, last: bool, lib: Platform, formatted: bool, indent: nat): Text
    decreases kid
  {
    (if formatted then Spaces(indent) else [])
    + NameText(kid.name, lib, formatted)
    + Body(kid.data, lib, formatted, indent)
    + if Completes(kid.data, lib) then Separator(last, formatted) else []
  }

  function Render(d: Data<Text>, lib: Platform, formatted: bool, indent: nat): Text {
    Body(d, lib, formatted, indent) + (if d.Cont? && Completes(d, lib) && formatted && indent == 0 then [LF] else [])
  }

  // ---------------------------------------------------------------------
  // Lemmas about the text
  // ---------------------------------------------------------------------

  /** Text of the first `k` children of a list. */
  function KidsUpTo(kids: seq<Node<Text>>, k: nat, lib: Platform, formatted: bool, indent: nat): Text
    requires k <= |kids|
    decreases k
  {
    if k == 0 then []
    else KidsUpTo(kids, k - 1, lib, formatted, indent) + KidText(kids[k - 1], k == |kids|, lib, formatted, indent)
  }

  /** The children from one on: its text, and the others unless it is not complete. */
  lemma KidsTextFrom(kids: seq<Node<Text>>, k: nat, lib: Platform, formatted: bool, indent: nat)
    requires k < |kids|
    ensures KidsText(kids[k..], lib, formatted, indent)
            == KidText(kids[k], k + 1 == |kids|, lib, formatted, indent)
               + if Completes(kids[k].data, lib) then KidsText(kids[k + 1..], lib, formatted, indent) else []
  {
    hide KidText, Completes;
    var rest := kids[k..];
    assert rest[0] == kids[k] && rest[1..] == kids[k + 1..] && (|rest| == 1 <==> k + 1 == |kids|);
  }

  lemma {:induction false} KidsUpToRest(kids: seq<Node<Text>>, k: nat, lib: Platform, formatted: bool, indent: nat)
    requires k <= |kids| && KidsComplete(kids[..k], lib)
    ensures KidsUpTo(kids, k, lib, formatted, indent) + KidsText(kids[k..], lib, formatted, indent)
            == KidsText(kids, lib, formatted, indent)
    decreases k
  {
    hide KidText, KidsText, Completes;
    if k == 0 {
      assert kids[0..] == kids;
      assert [] + KidsText(kids, lib, formatted, indent) == KidsText(kids, lib, formatted, indent);
    } else {
      assert kids[..k - 1] == kids[..k][..k - 1];
      KidsUpToRest(kids, k - 1, lib, formatted, indent);
      assert kids[..k][k - 1] == kids[k - 1];
      KidsTextFrom(kids, k - 1, lib, formatted, indent);
    }
  }

  lemma KidsUpToAll(kids: seq<Node<Text>>, lib: Platform, formatted: bool, indent: nat)
    requires KidsComplete(kids, lib)
    ensures KidsUpTo(kids, |kids|, lib, formatted, indent) == KidsText(kids, lib, formatted, indent)
  {
    hide KidsComplete;
    assert kids[..|kids|] == kids;
    KidsUpToRest(kids, |kids|, lib, formatted, indent);
    assert kids[|kids|..] == [];
  }

  /** The children up to one that does not fit are all that is written. */
  lemma KidsUpToPrefix(kids: seq<Node<Text>>, k: nat, lib: Platform, formatted: bool, indent: nat)
    requires k < |kids| && KidsComplete(kids[..k], lib)
    ensures KidsUpTo(kids, k + 1, lib, formatted, indent) <= KidsText(kids, lib, formatted, indent)
    ensures !Completes(kids[k].data, lib) ==>
              KidsUpTo(kids, k + 1, lib, formatted, indent) == KidsText(kids, lib, formatted, indent)
  {
    hide KidText, KidsText, Completes, KidsComplete;
    KidsUpToRest(kids, k, lib, formatted, indent);
    KidsTextFrom(kids, k, lib, formatted, indent);
  }

  function OpenText(isArray: bool, formatted: bool): Text {
    [OpenChar(isArray)] + (if formatted then [LF] else [])
  }

  function CloseText(isArray: bool, formatted: bool, indent: nat): Text {
    (if formatted && indent > 0 then Spaces(indent) else [])
    + [EndChar(isArray)]
    + (if formatted && indent == 0 then [LF] else [])
  }

  lemma RenderInside(d: Data<Text>, lib: Platform, formatted: bool, indent: nat)
    requires indent > 0
    ensures Render(d, lib, formatted, indent) == Body(d, lib, formatted, indent)
  {
  }

  lemma KidTextParts(kid: Node<Text>, last: bool, lib: Platform, formatted: bool, indent: nat)
    ensures KidText(kid, last, lib, formatted, indent)
         == ((if formatted then Spaces(indent) else []) + NameText(kid.name, lib, formatted))
            + Body(kid.data, lib, formatted, indent)
            + if Completes(kid.data, lib) then Separator(last, formatted) else []
  {
    hide Body, NameText, Spaces, Separator, Completes;
  }

  lemma RenderParts(isArray: bool, kids: seq<Node<Text>>, lib: Platform, formatted: bool, indent: nat)
    ensures Render(Cont(isArray, kids), lib, formatted, indent)
         == OpenText(isArray, formatted) + KidsText(kids, lib, formatted, indent + INDENT)
            + if KidsComplete(kids, lib) then CloseText(isArray, formatted, indent) else []
  {
    hide KidsText, Spaces;
  }

  /** A part written after a head, with a tail still to come. */
  lemma ContinuesAfter(before: Text, head: Text, now: Text, part: Text, tail: Text, all: bool)
    requires Continues(before + head, now, part, all)
    ensures Continues(before, now, head + part + tail, false)
    ensures all ==> now + tail == before + (head + part + tail)
  {
    assert before + head + part + tail == before + (head + part + tail);
    assert before <= before + head;
  }

  lemma ContinuesWithin(before: Text, done: Text, now: Text, part: Text, whole: Text, all: bool)
    requires Continues(before + done, now, part, all) && done + part <= whole
    requires all ==> done + part == whole
    ensures Continues(before, now, whole, all)
  {
    assert before + done + part == before + (done + part) <= before + whole;
    assert before <= before + done;
  }

  /** A text starts with just `n` spaces. */
  predicate Indented(t: Text, n: nat) {
    |t| > n && (forall k :: 0 <= k < n ==> t[k] as char == ' ') && t[n] as char != ' '
  }

  /** A number as the C library prints it does not start with a space. */
  predicate ShownTight(d: Data<Text>, lib: Platform) {
    d.Float? ==> |lib.show(d.d)| < SCRATCH_SIZE && lib.show(d.d) != [] && lib.show(d.d)[0] as char != ' '
  }

  /**
    In a formatted text a child at depth `k` stands on a line of its own behind two
    spaces for each level, and the bracket that closes an inner container behind
    two spaces less.
  */
  lemma IndentOfDepth(kid: Node<Text>, last: bool, lib: Platform, k: nat)
    requires ShownTight(kid.data, lib)
    ensures Indented(KidText(kid, last, lib, true, 2 * k), 2 * k)
    ensures kid.data.Cont? && kid.data.kids != [] && Completes(kid.data, lib) ==>
              var t := Body(kid.data, lib, true, 2 * k);
              && t[..2] == [OpenChar(kid.data.isArray), LF]
              && t[2..] == KidsText(kid.data.kids, lib, true, 2 * (k + 1))
                           + (if k > 0 then Spaces(2 * k) else []) + [EndChar(kid.data.isArray)]
  {
    var t := KidText(kid, last, lib, true, 2 * k);
    var name, body := NameText(kid.name, lib, true), Body(kid.data, lib, true, 2 * k);
    BodyHead(kid.data, lib, 2 * k);
    assert t[2 * k] == if name == [] then body[0] else QUOTE;
    if kid.data.Cont? && kid.data.kids != [] && Completes(kid.data, lib) {
      ContText(kid.data.isArray, kid.data.kids, lib, k);
    }
  }

  /** What stands around a name and a value: in a formatted text on a line of its own, otherwise without a space. */
  lemma LineOfKid(kid: Node<Text>, last: bool, lib: Platform, formatted: bool, indent: nat)
    returns (front: Text, colon: Text, end: Text)
    requires Completes(kid.data, lib)
    ensures KidText(kid, last, lib, formatted, indent)
            == front + ((if kid.name.Some? then Quoted(kid.name.value, lib.signed) else []) + colon)
               + Body(kid.data, lib, formatted, indent) + end
    ensures Indented(front + [0], if formatted then indent else 0) && |front| == (if formatted then indent else 0)
    ensures Spells(colon, if kid.name == None then "" else if formatted then ": " else ":")
    ensures Spells(end, if last then (if formatted then "\n" else "") else if formatted then ",\n" else ",")
  {
    hide Body, Completes, Quoted, Spells, Indented;
    front := if formatted then Spaces(indent) else [];
    var name := if kid.name.Some? then Quoted(kid.name.value, lib.signed) else [];
    colon := if kid.name == None then [] else [COLON] + if formatted then [SPACE] else [];
    end := Separator(last, formatted);
    assert NameText(kid.name, lib, formatted) == name + colon;
    LineParts(kid.name, last, formatted, indent);
    assert KidText(kid, last, lib, formatted, indent)
        == front + (name + colon) + Body(kid.data, lib, formatted, indent) + end;
  }

  lemma LineParts(name: Option<Text>, last: bool, formatted: bool, indent: nat)
    ensures Indented((if formatted then Spaces(indent) else []) + [0], if formatted then indent else 0)
    ensures Spells(if name == None then [] else [COLON] + if formatted then [SPACE] else [],
                   if name == None then "" else if formatted then ": " else ":")
    ensures Spells(Separator(last, formatted),
                   if last then (if formatted then "\n" else "") else if formatted then ",\n" else ",")
  {
  }

  lemma BodyHead(d: Data<Text>, lib: Platform, indent: nat)
    requires ShownTight(d, lib)
    ensures var t := Body(d, lib, true, indent); t != [] && t[0] as char != ' '
  {
    hide KidsText, Sent;
  }

  lemma ContText(isArray: bool, kids: seq<Node<Text>>, lib: Platform, k: nat)
    requires KidsComplete(kids, lib)
    ensures var t := Body(Cont(isArray, kids), lib, true, 2 * k);
            && t[..2] == [OpenChar(isArray), LF]
            && t[2..] == KidsText(kids, lib, true, 2 * (k + 1)) + (if k > 0 then Spaces(2 * k) else [])
                         + [EndChar(isArray)]
  {
    hide KidsText, Spaces, KidsComplete;
    var inner := KidsText(kids, lib, true, 2 * (k + 1));
    var end := (if k > 0 then Spaces(2 * k) else []) + [EndChar(isArray)];
    assert Body(Cont(isArray, kids), lib, true, 2 * k) == [OpenChar(isArray), LF] + (inner + end);
  }

  // ---------------------------------------------------------------------
  // Sinks
  // ---------------------------------------------------------------------

  /** A file takes `room` bytes; a write beyond them sets its error indicator. */
  datatype SinkKind = CountSink | BufferSink | FileSink(room: nat)

  function Front(t: Text, n: nat): Text {
    if |t| <= n then t else t[..n]
  }

  /** `now` continues `before` with all of `t`, or with a part of it. */
  predicate Continues(before: Text, now: Text, t: Text, all: bool) {
    if all then now == before + t else before <= now && now <= before + t
  }

  class Sink {
    const kind: SinkKind
    var count: nat
    const buf: array<Byte>
    var ptr: nat
    var len: nat
    var out: Text
    var failed: bool

    /** Everything that was asked to be written. */
    ghost var emitted: Text

    /** What the buffer held at first. */
    ghost const original: Text

    /** The counter is one more than the bytes; a buffer holds them all unless they do not fit. */
    ghost predicate Valid()
      reads this, buf
    {
      match kind
      case CountSink => count == 1 + |emitted|
      case FileSink(room) => out == Front(emitted, room) && (failed <==> |emitted| > room)
      case BufferSink =>
        && len == |emitted| && ptr <= len && ptr <= buf.Length
        && (len < buf.Length ==> ptr == len)
        && buf[..ptr] == emitted[..ptr]
        && Untouched(|emitted| + 1)
    }

    /** The buffer still has its first contents from a position on. */
    ghost predicate Untouched(from: nat)
      reads this, buf
    {
      |original| == buf.Length && forall i :: from <= i < buf.Length ==> buf[i] == original[i]
    }

    /** The sink could not take everything, and reports so. */
    ghost predicate Overflown()
      reads this
    {
      match kind
      case CountSink => false
      case BufferSink => |emitted| >= buf.Length
      case FileSink(room) => |emitted| > room
    }

    /** The error that this kind of sink reports. */
    function Code(): (ret: int)
      ensures ret != JSON_OK
    {
      if kind.FileSink? then FILE_ERROR else BUFFER_OVERFLOW
    }

    constructor (kind: SinkKind, buf: array<Byte>)
      ensures Valid() && this.kind == kind && this.buf == buf
      ensures emitted == [] && original == buf[..]
    {
      this.kind := kind;
      this.buf := buf;
      count, ptr, len, out, failed := 1, 0, 0, [], false;
      emitted := [];
      original := buf[..];
    }

    function Error(): (ret: int)
      reads this, buf
      requires Valid()
      ensures ret == if Overflown() then Code() else JSON_OK
    {
      match kind
      case CountSink => JSON_OK
      case BufferSink => if len >= buf.Length then BUFFER_OVERFLOW else JSON_OK
      case FileSink(_) => if failed then FILE_ERROR else JSON_OK
    }

    /** Passes bytes on to the file while it takes them. */
    method Append(s: Text)
      requires kind.FileSink? && |out| <= kind.room
      modifies this`out, this`failed
      ensures out == Front(old(out) + s, kind.room)
      ensures failed <==> old(failed) || |old(out)| + |s| > kind.room
    {
      if |out| + |s| > kind.room {
        failed := true;
        out := out + s[..kind.room - |out|];
        assert out == (old(out) + s)[..kind.room];
      } else {
        out := out + s;
      }
    }

    method WriteByte(c: Byte)
      requires Valid()
      modifies this, buf
      ensures Valid() && emitted == old(emitted) + [c]
      ensures kind == BufferSink ==> Untouched(|emitted|)
    {
      emitted := emitted + [c];
      match kind
      case CountSink => count := count + 1;
      case FileSink(_) => Append([c]);
      case BufferSink =>
        len := len + 1;
        if len < buf.Length {
          buf[ptr] := c;
          ptr := ptr + 1;
        }
    }

    /** Copies a string; the buffer sink also stores the string's terminator. */
    method WriteStr(s: Text)
      requires Valid()
      modifies this, buf
      ensures Valid() && emitted == old(emitted) + s
      ensures kind == BufferSink && |emitted| < buf.Length ==> buf[|emitted|] == 0
    {
      emitted := emitted + s;
      match kind
      case CountSink => count := count + |s|;
      case FileSink(_) => Append(s);
      case BufferSink =>
        len := len + |s|;
        if len < buf.Length {
          CopyIn(s);
          assert buf[..ptr + |s|] == emitted;
          buf[ptr + |s|] := 0;
          assert buf[..ptr + |s|] == emitted;
          ptr := ptr + |s|;
        }
    }

    method WriteArray(s: Text)
      requires Valid()
      modifies this, buf
      ensures Valid() && emitted == old(emitted) + s
    {
      emitted := emitted + s;
      match kind
      case CountSink => count := count + |s|;
      case FileSink(_) => Append(s);
      case BufferSink =>
        len := len + |s|;
        if len < buf.Length {
          CopyIn(s);
          assert buf[..ptr + |s|] == emitted;
          ptr := ptr + |s|;
        }
    }

    /** Stores `s` at the write position, inside the buffer. */
    method CopyIn(s: Text)
      requires ptr + |s| <= buf.Length
      modifies buf
      ensures buf[..ptr + |s|] == old(buf[..ptr]) + s
      ensures forall i :: ptr + |s| <= i < buf.Length ==> buf[i] == old(buf[i])
    {
      var k := 0;
      while k < |s|
        invariant k <= |s|
        invariant buf[..ptr + k] == old(buf[..ptr]) + s[..k]
        invariant forall i :: ptr + |s| <= i < buf.Length ==> buf[i] == old(buf[i])
      {
        buf[ptr + k] := s[k];
        assert buf[..ptr + k + 1] == buf[..ptr + k] + [s[k]];
        k := k + 1;
      }
    }

    /** The branch of a multi-byte character: its leading bytes are part of the stretch that is sent. */
    method WriteWide(str: Text, s: nat, p: nat, signed: bool, ghost e0: Text, ghost sent: Text)
        returns (ghost sent': Text)
      requires Valid() && Progress(str, sent, s, p, signed) && emitted == e0 + sent
      requires p < |str| && IsWide(str[p], signed) && WideLength(str[p..]) > 0
      modifies this, buf
      ensures Valid() && emitted == e0 + sent'
      ensures var q := p + WideLength(str[p..]); Progress(str, sent', q, q, signed)
    {
      hide Escape, WideLength, Progress, IsWide, Valid, Untouched;
      var q := p + WideLength(str[p..]);
      assert s <= p by { ProgressRange(str, sent, s, p, signed); }
      ProgressWide(str, sent, s, p, signed);
      if q - 1 != s {
        WriteArray(str[s..q - 1]);
      }
      assert emitted == e0 + sent + str[s..q - 1];
      WriteStr(Escape(str[p..]));
      Regroup(e0 + sent, str[s..q - 1], Escape(str[p..]), []);
      sent' := sent + (str[s..q - 1] + Escape(str[p..]));
      Regroup(e0, sent, str[s..q - 1] + Escape(str[p..]), []);
    }

    /**
      The branch of any other character, escaped or not. A signed byte from 0x80 on
      and the byte 0x80 read behind the escape table; whatever they find there, the
      byte has no letter and is passed on.
    */
    method WriteNarrow(str: Text, s: nat, p: nat, signed: bool, ghost e0: Text, ghost sent: Text)
        returns (s': nat, ghost sent': Text)
      requires Valid() && Progress(str, sent, s, p, signed) && emitted == e0 + sent
      requires p < |str| && !IsWide(str[p], signed)
      modifies this, buf
      ensures Valid() && emitted == e0 + sent'
      ensures Progress(str, sent', s', p + 1, signed)
    {
      hide Progress, EscapeChar, EscapeLetter, Marked, IsWide, Valid, Untouched;
      assert s <= p by { ProgressRange(str, sent, s, p, signed); }
      MarkedExact(str[p]);
      var marked := Marked(str[p]);
      if str[p] >= TABLE_SIZE {
        marked := *;
      }
      s', sent' := s, sent;
      if marked && EscapeLetter(str[p]).Some? {
        ghost var stretch := str[s..p] + EscapeChar(str[p]);
        ProgressEscape(str, sent, s, p, signed);
        if p != s {
          WriteArray(str[s..p]);
        }
        assert emitted == e0 + sent + str[s..p];
        WriteStr(EscapeChar(str[p]));
        Regroup(e0 + sent, str[s..p], EscapeChar(str[p]), []);
        Regroup(e0, sent, stretch, []);
        s', sent' := p + 1, sent + stretch;
      } else {
        ProgressPlain(str, sent, s, p, signed);
      }
    }

    /** What is left at the end of the string. */
    method WriteRest(str: Text, s: nat, signed: bool, ghost e0: Text, ghost sent: Text)
      requires Valid() && Progress(str, sent, s, |str|, signed) && emitted == e0 + sent
      modifies this, buf
      ensures Valid() && emitted == e0 + Sent(str, signed) && Accepted(str, signed)
    {
      hide Sent, Accepted, Progress, Valid, Untouched;
      ProgressRange(str, sent, s, |str|, signed);
      ProgressEnds(str, sent, s, signed);
      Regroup(e0, sent, str[s..], []);
      if |str| != s {
        WriteArray(str[s..]);
      }
    }

    /**
      Writes a quoted string, passing unescaped stretches on in one piece; a byte
      that is not accepted leaves it unfinished.
    */
    method WriteString(str: Text, signed: bool) returns (ret: int)
      requires Valid()
      modifies this, buf
      ensures Valid() && emitted == old(emitted) + Quoted(str, signed)
      ensures kind == BufferSink && Accepted(str, signed) ==> Untouched(|emitted|)
      ensures ret == if !Accepted(str, signed) then INVALID_UNICODE else if Overflown() then Code() else JSON_OK
    {
      hide Sent, Accepted, Progress, WideLength, Valid, Untouched, Overflown, Error, Code;
      WriteByte(QUOTE);
      ghost var e0 := emitted;
      ghost var sent: Text := [];
      var s: nat, p: nat := 0, 0;
      ProgressStarts(str, signed);
      while p < |str|
        invariant p <= |str| && Valid() && Progress(str, sent, s, p, signed) && emitted == e0 + sent
        decreases |str| - p
      {
        if IsWide(str[p], signed) {
          var n := WideLength(str[p..]);
          if n == 0 {
            ProgressRefused(str, sent, s, p, signed);
            Regroup(old(emitted), [QUOTE], Sent(str, signed), []);
            assert [QUOTE] + Sent(str, signed) + [] == [QUOTE] + Sent(str, signed);
            return INVALID_UNICODE;
          }
          sent := WriteWide(str, s, p, signed, e0, sent);
          s, p := p + n, p + n;
        } else {
          s, sent := WriteNarrow(str, s, p, signed, e0, sent);
          p := p + 1;
        }
      }
      WriteRest(str, s, signed, e0, sent);
      WriteByte(QUOTE);
      Regroup(old(emitted), [QUOTE], Sent(str, signed), [QUOTE]);
      ret := Error();
    }

    /** Writes a number, unless its text does not fit the scratch buffer; the text of an integer always does. */
    method WriteNumber(d: Data<Text>, lib: Platform) returns (ret: int)
      requires Valid() && (d.Float? || (d.Int? && IsInt64(d.i)))
      modifies this, buf
      ensures Valid() && (d.Int? ==> |NumberText(d, lib)| < SCRATCH_SIZE)
      ensures |NumberText(d, lib)| < SCRATCH_SIZE ==>
                && emitted == old(emitted) + NumberText(d, lib)
                && (kind == BufferSink && |emitted| < buf.Length ==> buf[|emitted|] == 0)
                && ret == if Overflown() then Code() else JSON_OK
      ensures |NumberText(d, lib)| >= SCRATCH_SIZE ==>
                emitted == old(emitted) && buf[..] == old(buf[..]) && ret == BUFFER_OVERFLOW
    {
      var text := NumberText(d, lib);
      if d.Int? {
        DecimalFits(d.i);
      }
      if |text| > SCRATCH_SIZE - 1 {
        return BUFFER_OVERFLOW;
      }
      WriteStr(text);
      ret := Error();
    }

    /** Indentation, name and colon of one child; nobody asks whether the name was accepted. */
    method WriteName(name: Option<Text>, lib: Platform, formatted: bool, indent: nat)
      requires Valid()
      modifies this, buf
      ensures Valid()
      ensures emitted == old(emitted) + ((if formatted then Spaces(indent) else []) + NameText(name, lib, formatted))
    {
      hide Quoted, Valid, Untouched;
      ghost var e0 := emitted;
      if formatted {
        WriteArray(Spaces(indent));
      }
      ghost var e1 := emitted;
      assert e1 == e0 + if formatted then Spaces(indent) else [];
      if name.Some? {
        var _ := WriteString(name.value, lib.signed);
        WriteByte(COLON);
        if formatted {
          WriteByte(SPACE);
        }
      }
      assert emitted == e1 + NameText(name, lib, formatted);
    }

    /** What separates a child from the next one. */
    method WriteSeparator(last: bool, formatted: bool)
      requires Valid()
      modifies this, buf
      ensures Valid()
      ensures emitted == old(emitted) + Separator(last, formatted)
    {
      if !last {
        WriteByte(COMMA);
      }
      if formatted {
        WriteByte(LF);
      }
    }

    /** Closing indentation and bracket of a container, with the line end of a formatted root. */
    method WriteClose(isArray: bool, formatted: bool, indent: nat)
      requires Valid()
      modifies this, buf
      ensures Valid()
      ensures emitted == old(emitted) + CloseText(isArray, formatted, indent)
      ensures kind == BufferSink ==> Untouched(|emitted|)
    {
      if formatted && indent > 0 {
        WriteArray(Spaces(indent));
      }
      WriteByte(EndChar(isArray));
      if formatted && indent == 0 {
        WriteByte(LF);
      }
    }

    method WriteOpen(isArray: bool, formatted: bool)
      requires Valid()
      modifies this, buf
      ensures Valid()
      ensures emitted == old(emitted) + OpenText(isArray, formatted)
    {
      WriteByte(OpenChar(isArray));
      if formatted {
        WriteByte(LF);
      }
    }

    /** The reason of an error: the sink's, or the first value that is not written completely. */
    ghost predicate Reason(ret: int, failure: int)
      reads this
    {
      (ret == Code() && Overflown()) || ret == failure
    }

    /** One child; an error of its value leaves the separator unwritten. */
    method WriteKid(kid: Node<Text>, last: bool, lib: Platform, formatted: bool, indent: nat) returns (ret: int)
      requires Valid() && Writable(kid.data) && indent > 0
      modifies this, buf
      ensures Valid()
      ensures Continues(old(emitted), emitted, KidText(kid, last, lib, formatted, indent),
                        ret == JSON_OK || !Overflown())
      ensures if ret == JSON_OK then Completes(kid.data, lib) else Reason(ret, Failure(kid.data, lib))
      decreases kid, 1
    {
      hide Body, Spaces, NameText, Separator, Writable, Completes, Failure;
      ghost var e0 := emitted;
      WriteName(kid.name, lib, formatted, indent);
      ghost var head := (if formatted then Spaces(indent) else []) + NameText(kid.name, lib, formatted);
      ret := WriteImpl(kid.data, lib, formatted, indent);
      RenderInside(kid.data, lib, formatted, indent);
      KidTextParts(kid, last, lib, formatted, indent);
      ghost var tail := if Completes(kid.data, lib) then Separator(last, formatted) else [];
      ContinuesAfter(e0, head, emitted, Body(kid.data, lib, formatted, indent), tail, !Overflown());
      if ret == JSON_OK {
        WriteSeparator(last, formatted);
      }
    }

    /** All children, up to the first error. */
    method WriteKids(kids: seq<Node<Text>>, lib: Platform, formatted: bool, indent: nat) returns (ret: int)
      requires Valid() && indent > 0
      requires forall k :: 0 <= k < |kids| ==> Writable(kids[k].data)
      modifies this, buf
      ensures Valid()
      ensures Continues(old(emitted), emitted, KidsText(kids, lib, formatted, indent), ret == JSON_OK || !Overflown())
      ensures if ret == JSON_OK then KidsComplete(kids, lib) else Reason(ret, FirstFailure(kids, lib))
      decreases kids, 2
    {
      hide KidText, KidsText, Writable, Completes, Overflown, Valid, Code, Failure, FirstFailure;
      ghost var e0 := emitted;
      var k := 0;
      ret := JSON_OK;
      while k < |kids|
        invariant k <= |kids| && Valid() && ret == JSON_OK && KidsComplete(kids[..k], lib)
        invariant emitted == e0 + KidsUpTo(kids, k, lib, formatted, indent)
      {
        ret := WriteKid(kids[k], k + 1 == |kids|, lib, formatted, indent);
        ghost var done := KidsUpTo(kids, k, lib, formatted, indent);
        ghost var kid := KidText(kids[k], k + 1 == |kids|, lib, formatted, indent);
        KidsUpToPrefix(kids, k, lib, formatted, indent);
        if ret != JSON_OK {
          if ret == Failure(kids[k].data, lib) {
            FailureExact(kids[k].data, lib);
            FirstFailureAt(kids, k, lib);
          }
          ContinuesWithin(e0, done, emitted, kid, KidsText(kids, lib, formatted, indent), !Overflown());
          return;
        }
        k := k + 1;
      }
      assert kids[..|kids|] == kids;
      KidsUpToAll(kids, lib, formatted, indent);
    }

    /** Brackets and children; an error of a child leaves the rest unwritten. */
    method WriteContainer(isArray: bool, kids: seq<Node<Text>>, lib: Platform, formatted: bool, indent: nat)
        returns (ret: int)
      requires Valid()
      requires forall k :: 0 <= k < |kids| ==> Writable(kids[k].data)
      modifies this, buf
      ensures Valid()
      ensures Continues(old(emitted), emitted, Render(Cont(isArray, kids), lib, formatted, indent),
                        ret == JSON_OK || !Overflown())
      ensures kind == BufferSink && ret == JSON_OK ==> Untouched(|emitted|)
      ensures if ret == JSON_OK then KidsComplete(kids, lib) else Reason(ret, FirstFailure(kids, lib))
      decreases kids, 3
    {
      hide KidsText, OpenText, CloseText, Render, Writable, KidsComplete, Completes, FirstFailure;
      ghost var e0 := emitted;
      WriteOpen(isArray, formatted);
      ret := WriteKids(kids, lib, formatted, indent + INDENT);
      FirstFailureExact(kids, lib);
      RenderParts(isArray, kids, lib, formatted, indent);
      ghost var tail := if KidsComplete(kids, lib) then CloseText(isArray, formatted, indent) else [];
      ContinuesAfter(e0, OpenText(isArray, formatted), emitted, KidsText(kids, lib, formatted, indent + INDENT),
        tail, ret == JSON_OK || !Overflown());
      if ret == JSON_OK {
        WriteClose(isArray, formatted, indent);
      }
    }

    /**
      Writes a value at an indentation. A sink that takes everything receives all
      of its text, another one a part; success means that it did and that every
      number fitted.
    */
    method WriteImpl(d: Data<Text>, lib: Platform, formatted: bool, indent: nat) returns (ret: int)
      requires Valid() && Writable(d)
      modifies this, buf
      ensures Valid()
      ensures Continues(old(emitted), emitted, Render(d, lib, formatted, indent), !Overflown())
      ensures kind == BufferSink && ret == JSON_OK ==>
                if d.Cont? || d.Str? then Untouched(|emitted|) else |emitted| < buf.Length && buf[|emitted|] == 0
      ensures ret == JSON_OK <==> Completes(d, lib) && !Overflown()
      ensures ret != JSON_OK ==> Reason(ret, Failure(d, lib))
      decreases d, 0
    {
      hide Quoted, Decimal, KidsText, WritableName, IsCString, Valid, Untouched, Error, Code;
      match d {
        case Cont(isArray, kids) =>
          ret := WriteContainer(isArray, kids, lib, formatted, indent);
        case Bool(v) => WriteStr(if v then TRUE_TEXT else FALSE_TEXT); ret := JSON_OK;
        case Null => WriteStr(NULL_TEXT); ret := JSON_OK;
        case Str(s) => ret := WriteString(s, lib.signed);
        case Int(_) => ret := WriteNumber(d, lib);
        case Float(_) => ret := WriteNumber(d, lib);
      }
      FailureExact(d, lib);
      if ret == JSON_OK {
        ret := Error();
      }
    }
  }

  // ---------------------------------------------------------------------
  // The three entry points
  // ---------------------------------------------------------------------

  /** The length of the text, and one byte for a terminator; an error code is returned as an unsigned size. */
  method WriteCount(d: Data<Text>, lib: Platform, formatted: bool) returns (n: nat)
    requires Writable(d)
    ensures n == if Completes(d, lib) then |Render(d, lib, formatted, 0)| + 1 else SIZE_MODULUS + Failure(d, lib)
  {
    var none := new Byte[0];
    var sink := new Sink(CountSink, none);
    var ret := sink.WriteImpl(d, lib, formatted, 0);
    if ret != JSON_OK {
      return SIZE_MODULUS + ret;
    }
    n := sink.count;
  }

  /** Writes to a file that takes `room` bytes; success means that they suffice and that every value is complete. */
  method WriteFile(d: Data<Text>, lib: Platform, formatted: bool, room: nat) returns (ret: int, out: Text)
    requires Writable(d)
    ensures ret == JSON_OK <==> Completes(d, lib) && |Render(d, lib, formatted, 0)| <= room
    ensures |Render(d, lib, formatted, 0)| <= room ==> ret == Failure(d, lib)
    ensures |Render(d, lib, formatted, 0)| > room ==> ret == FILE_ERROR || ret == Failure(d, lib)
    ensures out == Front(Render(d, lib, formatted, 0), room)
  {
    hide Render, Writable, Completes, Failure;
    var none := new Byte[0];
    var sink := new Sink(FileSink(room), none);
    ret := sink.WriteImpl(d, lib, formatted, 0);
    FailureExact(d, lib);
    out := sink.out;
  }

  /**
    Stores the text in a buffer, which succeeds exactly when a byte is left over
    and every value is complete. The text is terminated when there are two bytes
    left. With exactly one, only a number or a literal is: the last byte after
    any other root is not written.
  */
  method WriteBuf(d: Data<Text>, buf: array<Byte>, lib: Platform, formatted: bool) returns (ret: int)
    requires Writable(d) && buf.Length > 0
    modifies buf
    ensures ret == JSON_OK <==> Completes(d, lib) && |Render(d, lib, formatted, 0)| < buf.Length
    ensures |Render(d, lib, formatted, 0)| < buf.Length ==> ret == Failure(d, lib)
    ensures |Render(d, lib, formatted, 0)| >= buf.Length ==> ret == BUFFER_OVERFLOW || ret == Failure(d, lib)
    ensures |Render(d, lib, formatted, 0)| < buf.Length ==> Render(d, lib, formatted, 0) <= buf[..]
    ensures |Render(d, lib, formatted, 0)| + 1 < buf.Length ==> buf[|Render(d, lib, formatted, 0)|] == 0
    ensures Completes(d, lib) && |Render(d, lib, formatted, 0)| + 1 == buf.Length ==>
              buf[buf.Length - 1] == if d.Cont? || d.Str? then old(buf[buf.Length - 1]) else 0
  {
    hide Render, Writable, Completes, Failure;
    var sink := new Sink(BufferSink, buf);
    ret := sink.WriteImpl(d, lib, formatted, 0);
    FailureExact(d, lib);
    ghost var n := |Render(d, lib, formatted, 0)|;
    assert n < buf.Length ==> buf[..n] == Render(d, lib, formatted, 0);
    if sink.len < buf.Length - 1 {
      buf[sink.ptr] := 0;
    }
    assert n < buf.Length ==> buf[..n] == Render(d, lib, formatted, 0);
  }

  /** A buffer of the counted size receives what a file would. */
  method WriteCounted(d: Data<Text>, lib: Platform, formatted: bool) returns (ret: int, buf: array<Byte>, out: Text)
    requires Writable(d) && Completes(d, lib)
    ensures ret == JSON_OK && out == Render(d, lib, formatted, 0)
    ensures buf.Length == |out| + 1 && buf[..|out|] == out
  {
    var n := WriteCount(d, lib, formatted);
    var r;
    r, out := WriteFile(d, lib, formatted, n);
    buf := new Byte[n];
    ret := WriteBuf(d, buf, lib, formatted);
  }
}
