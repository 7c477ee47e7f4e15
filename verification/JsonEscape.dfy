/**
  What the writer sends for a string. Where characters are signed, none is above
  0x80, and every byte is sent as it is or after a backslash. Where they are
  unsigned, a byte above 0x80 begins a multi-byte character, whose escape is
  sent after its leading bytes; a byte that does not ends the string.
*/
module JsonEscape {
  import opened Common
  import opened JsonSyntax

  // ---------------------------------------------------------------------
  // Escapes
  // ---------------------------------------------------------------------

  /** Characters written as a backslash and a letter. */
  function EscapeLetter(c: Byte): Option<Byte> {
    if c == QUOTE || c == BACKSLASH || c == SLASH then Some(c)
    else if c == LF then Some(110)
    else if c == TAB then Some(116)
    else if c == CR then Some(114)
    else if c == FF then Some(102)
    else if c == BS then Some(98)
    else None
  }

  const TABLE_SIZE: nat := 128

  /** The bytes marked in the escape table. */
  predicate Marked(c: Byte) {
    8 <= c <= 10 || 12 <= c <= 13 || c == 34 || c == 47 || c == 92
  }

  /** The table marks exactly the bytes that have a letter, and none has one behind its end. */
  lemma MarkedExact(c: Byte)
    ensures Marked(c) <==> EscapeLetter(c).Some?
    ensures c >= TABLE_SIZE ==> EscapeLetter(c) == None
  {
  }

  function EscapeChar(c: Byte): (t: Text)
    ensures 1 <= |t| <= 2
  {
    match EscapeLetter(c)
    case Some(x) => [BACKSLASH, x]
    case None => [c]
  }

  /** A byte above 0x80, which only an unsigned character can be. */
  predicate IsWide(c: Byte, signed: bool) {
    !signed && c > 0x80
  }

  /** Length of the multi-byte character at the start, zero if its bytes are not accepted. */
  function WideLength(s: Text): (n: nat)
    requires s != [] && s[0] > 0x80
    ensures n <= |s| && n != 1 && n <= 3
    ensures forall k :: 0 <= k < n ==> s[k] >= 0x80
    ensures n == 2 ==> 0xC0 <= s[0] < 0xE0
    ensures n == 3 ==> s[0] >= 0xE0
  {
    if s[0] >= 0xE0 then
      if |s| < 3 || s[1] < 0x80 || s[2] < 0x80 then 0 else 3
    else if s[0] >= 0xC0 then
      if |s| < 2 || s[1] < 0x80 then 0 else 2
    else 0
  }

  /** The payload bits of its bytes. */
  function CodePoint(s: Text): (u: nat)
    requires s != [] && s[0] > 0x80 && WideLength(s) > 0
    ensures u < 0x10000
  {
    var a: int, b: int := s[0], s[1];
    if WideLength(s) == 3 then a % 16 * 4096 + b % 64 * 64 + s[2] % 64
    else a % 32 * 64 + b % 64
  }

  function HexChar(d: nat): Byte
    requires d < 16
  {
    if d < 10 then 48 + d else 87 + d
  }

  function Hex2(b: Byte): (t: Text)
    ensures |t| == 2
  {
    [HexChar(b / 16), HexChar(b % 16)]
  }

  function Hex4(u: nat): (t: Text)
    requires u < 0x10000
    ensures |t| == 4
  {
    Hex2(u / 256) + Hex2(u % 256)
  }

  function Escape(s: Text): (t: Text)
    requires s != [] && s[0] > 0x80 && WideLength(s) > 0
    ensures |t| == 6
  {
    [BACKSLASH, 117] + Hex4(CodePoint(s))
  }

  // ---------------------------------------------------------------------
  // Strings
  // ---------------------------------------------------------------------

  /** Every byte above 0x80 is part of an accepted character. */
  predicate Accepted(s: Text, signed: bool) {
    || s == []
    || (if IsWide(s[0], signed) then WideLength(s) > 0 && Accepted(s[WideLength(s)..], signed)
        else Accepted(s[1..], signed))
  }

  lemma {:induction false} SignedAccepted(s: Text)
    ensures Accepted(s, true)
  {
    if s != [] {
      SignedAccepted(s[1..]);
    }
  }

  /**
    The bytes sent between the quotes. Plain characters wait for an escape or the
    end; those that wait when a byte is refused are not sent.
  */
  function Sent(s: Text, signed: bool): Text
    decreases s, 0
  {
    if s == [] then []
    else if IsWide(s[0], signed) then
      var n := WideLength(s);
      if n == 0 then [] else s[..n - 1] + Escape(s) + Sent(s[n..], signed)
    else if EscapeLetter(s[0]).Some? then EscapeChar(s[0]) + Sent(s[1..], signed)
    else if Waits(s[1..], signed) then []
    else [s[0]] + Sent(s[1..], signed)
  }

  /** Nothing more is sent before a byte is refused. */
  predicate Waits(s: Text, signed: bool)
    decreases s, 1
  {
    !Accepted(s, signed) && Sent(s, signed) == []
  }

  /** A string with its quotes; the second is missing if a byte was refused. */
  function Quoted(s: Text, signed: bool): Text {
    [QUOTE] + Sent(s, signed) + if Accepted(s, signed) then [QUOTE] else []
  }

  /** Characters that are sent as they are. */
  predicate Plain(t: Text, signed: bool) {
    forall k :: 0 <= k < |t| ==> !IsWide(t[k], signed) && EscapeLetter(t[k]) == None
  }

  lemma {:induction false} PlainSent(t: Text, rest: Text, signed: bool)
    requires Plain(t, signed)
    ensures Accepted(t + rest, signed) <==> Accepted(rest, signed)
    ensures Sent(t + rest, signed) == if Waits(rest, signed) then [] else t + Sent(rest, signed)
  {
    hide Waits, Escape, WideLength, Sent, Accepted, IsWide;
    if t == [] {
      assert t + rest == rest;
      WaitsFacts(rest, signed);
    } else {
      assert Plain(t[1..], signed) && !IsWide(t[0], signed) && EscapeLetter(t[0]) == None;
      PlainSent(t[1..], rest, signed);
      assert t + rest == [t[0]] + (t[1..] + rest) && t == [t[0]] + t[1..];
      PlainFirst(t[0], t[1..] + rest, signed);
      WaitsFacts(rest, signed);
      WaitsFacts(t[1..] + rest, signed);
      Regroup([t[0]], t[1..], Sent(rest, signed), []);
    }
  }

  lemma WaitsFacts(s: Text, signed: bool)
    ensures Waits(s, signed) <==> !Accepted(s, signed) && Sent(s, signed) == []
  {
    hide Sent, Accepted;
  }

  lemma PlainFirst(c: Byte, s: Text, signed: bool)
    requires !IsWide(c, signed) && EscapeLetter(c) == None
    ensures Accepted([c] + s, signed) <==> Accepted(s, signed)
    ensures Sent([c] + s, signed) == if Waits(s, signed) then [] else [c] + Sent(s, signed)
  {
    hide Waits, EscapeChar, EscapeLetter, IsWide;
    assert ([c] + s)[1..] == s;
  }

  lemma Regroup(a: Text, b: Text, c: Text, d: Text)
    ensures a + (b + c + d) == (a + b) + c + d
    ensures a + (b + c) == a + b + c
  {
  }

  /** An escaped character that follows a plain stretch sends the stretch. */
  lemma SentEscape(t: Text, c: Byte, rest: Text, signed: bool)
    requires Plain(t, signed) && !IsWide(c, signed) && EscapeLetter(c).Some?
    ensures Sent(t + ([c] + rest), signed) == t + EscapeChar(c) + Sent(rest, signed)
    ensures Accepted(t + ([c] + rest), signed) <==> Accepted(rest, signed)
  {
    hide Plain, EscapeChar, EscapeLetter, IsWide;
    PlainSent(t, [c] + rest, signed);
    assert ([c] + rest)[1..] == rest;
    assert Sent([c] + rest, signed) == EscapeChar(c) + Sent(rest, signed) != [];
    Regroup(t, EscapeChar(c), Sent(rest, signed), []);
  }

  lemma WideHead(s: Text, signed: bool)
    requires s != [] && IsWide(s[0], signed) && WideLength(s) > 0
    ensures var n := WideLength(s);
            && Sent(s, signed) == s[..n - 1] + Escape(s) + Sent(s[n..], signed) && !Waits(s, signed)
            && (Accepted(s, signed) <==> Accepted(s[n..], signed))
  {
    hide Escape, WideLength;
    assert |Escape(s)| > 0;
  }

  /** So does a multi-byte character, with all of its bytes but the last. */
  lemma SentWide(t: Text, s: Text, signed: bool)
    requires Plain(t, signed) && s != [] && IsWide(s[0], signed) && WideLength(s) > 0
    ensures var n := WideLength(s);
            && Sent(t + s, signed) == (t + s[..n - 1]) + Escape(s) + Sent(s[n..], signed)
            && (Accepted(t + s, signed) <==> Accepted(s[n..], signed))
  {
    hide Plain, Escape, WideLength, Sent, Accepted, Waits;
    PlainSent(t, s, signed);
    WideHead(s, signed);
    Regroup(t, s[..WideLength(s) - 1], Escape(s), Sent(s[WideLength(s)..], signed));
  }

  /** A byte that is refused loses the stretch before it. */
  lemma SentRefused(t: Text, s: Text, signed: bool)
    requires Plain(t, signed) && s != [] && IsWide(s[0], signed) && WideLength(s) == 0
    ensures Waits(t + s, signed)
  {
    hide Plain;
    PlainSent(t, s, signed);
  }

  lemma SentEnd(t: Text, signed: bool)
    requires Plain(t, signed)
    ensures Sent(t, signed) == t && Accepted(t, signed)
  {
    hide Plain;
    PlainSent(t, [], signed);
    assert t + [] == t;
  }

  lemma PlainMore(str: Text, s: nat, p: nat, signed: bool)
    requires s <= p < |str| && Plain(str[s..p], signed)
    requires !IsWide(str[p], signed) && EscapeLetter(str[p]) == None
    ensures Plain(str[s..p + 1], signed)
  {
    assert str[s..p + 1] == str[s..p] + [str[p]];
  }

  lemma Cut(str: Text, s: nat, p: nat, q: nat)
    requires s <= p < q <= |str|
    ensures str[s..] == str[s..p] + str[p..] && str[p..][q - p..] == str[q..]
    ensures str[p..] == [str[p]] + str[p + 1..] && str[s..p] + str[p..][..q - p - 1] == str[s..q - 1]
  {
  }

  // ---------------------------------------------------------------------
  // The loop over a string
  // ---------------------------------------------------------------------

  /** `sent` is what was sent before the plain stretch that starts at `s` and ends at `p`. */
  ghost predicate Progress(str: Text, sent: Text, s: nat, p: nat, signed: bool) {
    && s <= p <= |str| && Plain(str[s..p], signed)
    && Sent(str, signed) == sent + Sent(str[s..], signed)
    && (Accepted(str, signed) <==> Accepted(str[s..], signed))
  }

  lemma ProgressStarts(str: Text, signed: bool)
    ensures Progress(str, [], 0, 0, signed)
  {
    assert str[0..] == str && [] + Sent(str, signed) == Sent(str, signed);
  }

  lemma ProgressRange(str: Text, sent: Text, s: nat, p: nat, signed: bool)
    requires Progress(str, sent, s, p, signed)
    ensures s <= p <= |str|
  {
  }

  lemma ProgressMoves(str: Text, sent: Text, s: nat, p: nat, stretch: Text, q: nat, signed: bool)
    requires Progress(str, sent, s, p, signed) && q <= |str|
    requires Sent(str[s..], signed) == stretch + Sent(str[q..], signed)
    requires Accepted(str[s..], signed) <==> Accepted(str[q..], signed)
    ensures Progress(str, sent + stretch, q, q, signed)
  {
    hide Sent, Accepted;
    Regroup(sent, stretch, Sent(str[q..], signed), []);
  }

  lemma ProgressEnds(str: Text, sent: Text, s: nat, signed: bool)
    requires Progress(str, sent, s, |str|, signed)
    ensures Sent(str, signed) == sent + str[s..] && Accepted(str, signed)
  {
    hide Sent, Accepted, Plain;
    assert str[s..|str|] == str[s..];
    SentEnd(str[s..], signed);
  }

  lemma ProgressRefused(str: Text, sent: Text, s: nat, p: nat, signed: bool)
    requires Progress(str, sent, s, p, signed) && p < |str| && IsWide(str[p], signed) && WideLength(str[p..]) == 0
    ensures Sent(str, signed) == sent && !Accepted(str, signed)
  {
    hide Sent, Accepted, Plain, WideLength;
    Cut(str, s, p, p + 1);
    SentRefused(str[s..p], str[p..], signed);
  }

  /** A multi-byte character ends the stretch; all of its bytes but the last are part of it. */
  lemma ProgressWide(str: Text, sent: Text, s: nat, p: nat, signed: bool)
    requires Progress(str, sent, s, p, signed) && p < |str| && IsWide(str[p], signed) && WideLength(str[p..]) > 0
    ensures var q := p + WideLength(str[p..]);
            Progress(str, sent + (str[s..q - 1] + Escape(str[p..])), q, q, signed)
  {
    hide Escape, WideLength, Sent, Accepted, Plain, IsWide;
    var q := p + WideLength(str[p..]);
    Cut(str, s, p, q);
    SentWide(str[s..p], str[p..], signed);
    ProgressMoves(str, sent, s, p, str[s..q - 1] + Escape(str[p..]), q, signed);
  }

  lemma ProgressEscape(str: Text, sent: Text, s: nat, p: nat, signed: bool)
    requires Progress(str, sent, s, p, signed) && p < |str|
    requires !IsWide(str[p], signed) && EscapeLetter(str[p]).Some?
    ensures Progress(str, sent + (str[s..p] + EscapeChar(str[p])), p + 1, p + 1, signed)
  {
    hide Sent, Accepted, Plain, EscapeChar, EscapeLetter, IsWide;
    Cut(str, s, p, p + 1);
    SentEscape(str[s..p], str[p], str[p + 1..], signed);
    ProgressMoves(str, sent, s, p, str[s..p] + EscapeChar(str[p]), p + 1, signed);
  }

  lemma ProgressPlain(str: Text, sent: Text, s: nat, p: nat, signed: bool)
    requires Progress(str, sent, s, p, signed) && p < |str|
    requires !IsWide(str[p], signed) && EscapeLetter(str[p]) == None
    ensures Progress(str, sent, s, p + 1, signed)
  {
    hide Sent, Accepted, Plain, EscapeLetter, IsWide;
    PlainMore(str, s, p, signed);
  }
}
