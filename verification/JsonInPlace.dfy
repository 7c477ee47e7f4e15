/**
  The parser as it runs: it advances an index over the buffer, rewrites escaped
  strings in place, tags and terminates every string inside the buffer, and
  counts the references to the buffer.

  Every method is proved against the pure grammar on the buffer as it was, so
  the rewriting never influences what is parsed later nor what was returned
  earlier.
*/
module JsonInPlace {
  import opened Common
  import opened JsonSyntax
  import opened JsonParser
  import opened JsonMemory

  /** Text decoded so far followed by the outcome for the rest. */
  function Prepend(t: Text, u: Unescaped): Unescaped {
    match u
    case Invalid(_) => u
    case Text(rest) => Unescaped.Text(t + rest)
  }

  lemma PrependAssoc(s: Text, t: Text, u: Unescaped)
    ensures Prepend(s, Prepend(t, u)) == Prepend(s + t, u)
  {
    if u.Text? {
      assert s + (t + u.text) == s + t + u.text;
    }
  }

  /** One step of decoding at `p`. */
  lemma UnescapeStep(b: Text, p: nat, end: nat)
    requires p < end <= |b| && Paired(b, p, end)
    ensures b[p] != BACKSLASH ==>
              Paired(b, p + 1, end) && Unescape(b, p, end) == Prepend([b[p]], Unescape(b, p + 1, end))
    ensures b[p] == BACKSLASH ==> p + 2 <= end && Paired(b, p + 2, end)
    ensures b[p] == BACKSLASH && b[p + 1] == 117 ==>
              var ch := UnicodeAt(b, p + 2, end);
              if ch < 0 then Unescape(b, p, end) == Invalid(ch)
              else
                && p + 6 <= end && Paired(b, p + 6, end)
                && Unescape(b, p, end) == Prepend(Utf8(ch), Unescape(b, p + 6, end))
    ensures b[p] == BACKSLASH && b[p + 1] != 117 ==>
              match SimpleEscape(b[p + 1])
              case None => Unescape(b, p, end) == Invalid(STRING_INVALID_ESC)
              case Some(c) => Unescape(b, p, end) == Prepend([c], Unescape(b, p + 2, end))
  {
    if b[p] == BACKSLASH && b[p + 1] == 117 && UnicodeAt(b, p + 2, end) >= 0 {
      PairedSkip(b, p + 2, p + 6, end);
    }
  }

  /** Bytes before `i` and the terminator are as they were. */
  predicate Kept(b: Text, b': Text, i: nat) {
    && |b'| == |b|
    && IsBuffer(b')
    && forall k :: 0 <= k < i && k < |b| ==> b'[k] == b[k]
  }

  function Overwrite(b: Text, at: nat, t: Text): Text
    requires at + |t| <= |b|
  {
    b[..at] + t + b[at + |t|..]
  }

  /** `cur` holds at `from..dst` the decoded form of what was between `from` and `str`. */
  predicate Decoded(b: Text, cur: Text, from: nat, dst: nat, str: nat, to: nat) {
    && from <= dst <= str <= to < |b| && Paired(b, from, to)
    && Kept(b, cur, from) && SameFrom(b, cur, str)
    && Paired(b, str, to)
    && Unescape(b, from, to) == Prepend(cur[from..dst], Unescape(b, str, to))
  }

  lemma StartDecoding(b: Text, from: nat, to: nat)
    requires IsBuffer(b) && from <= to < |b| && Paired(b, from, to)
    ensures Decoded(b, b, from, from, from, to)
  {
    assert b[from..from] == [];
    var u := Unescape(b, from, to);
    assert u.Text? ==> [] + u.text == u.text;
  }

  lemma DecodedFacts(b: Text, cur: Text, from: nat, dst: nat, str: nat, to: nat)
    requires Decoded(b, cur, from, dst, str, to)
    ensures SameFrom(b, cur, str) && Kept(b, cur, from) && from <= dst <= str <= to < |b| && Paired(b, str, to)
  {}

  lemma DecodedInvalid(b: Text, cur: Text, from: nat, dst: nat, str: nat, to: nat)
    requires Decoded(b, cur, from, dst, str, to) && Unescape(b, str, to).Invalid?
    ensures Paired(b, from, to) && Unescape(b, from, to) == Unescape(b, str, to) && SameFrom(b, cur, to)
  {}

  lemma DecodedEnd(b: Text, cur: Text, from: nat, dst: nat, to: nat)
    requires Decoded(b, cur, from, dst, to, to)
    ensures Paired(b, from, to) && Unescape(b, from, to) == Unescaped.Text(cur[from..dst])
    ensures SameFrom(b, cur, to) && Kept(b, cur, from)
  {
    assert cur[from..dst] + [] == cur[from..dst];
  }

  lemma UnicodeAtFrame(b: Text, cur: Text, p: nat, q: nat, to: nat)
    requires SameFrom(b, cur, p) && p <= q <= to <= |b|
    ensures UnicodeAt(cur, q, to) == UnicodeAt(b, q, to)
  {}

  lemma DecodeStep(b: Text, cur: Text, from: nat, dst: nat, str: nat, to: nat, t: Text, str': nat)
    requires IsBuffer(b) && Decoded(b, cur, from, dst, str, to)
    requires str < str' <= to && dst + |t| <= str' && Paired(b, str', to)
    requires Unescape(b, str, to) == Prepend(t, Unescape(b, str', to))
    ensures Decoded(b, Overwrite(cur, dst, t), from, dst + |t|, str', to)
  {
    hide Unescape, Paired, Prepend;
    var cur' := Overwrite(cur, dst, t);
    assert cur'[from..dst + |t|] == cur[from..dst] + t;
    PrependAssoc(cur[from..dst], t, Unescape(b, str', to));
  }

  // ---------------------------------------------------------------------
  // What a parsing method has done, compared with the pure grammar
  // ---------------------------------------------------------------------

  ghost predicate StrOutcome(b: Text, b': Text, i: nat, spec: Parsed<Text>, ret: int, index: nat, off: Ref, refs: int) {
    && Kept(b, b', i)
    && match spec
       case Err(code) => ret == code && refs == 0
       case Ok(t, next) =>
         && ret == JSON_OK && index == next && SameFrom(b, b', next) && refs == 1
         && StrOk(b', off, i, next) && ReadStr(b', off) == t
  }

  ghost predicate NameOutcome(
      b: Text, b': Text, i: nat, spec: Parsed<Option<Text>>, ret: int, index: nat, name: Option<Ref>, refs: int) {
    && Kept(b, b', i)
    && match spec
       case Err(code) => ret == code && refs == 0
       case Ok(t, next) =>
         && ret == JSON_OK && index == next && SameFrom(b, b', next) && refs == NameRefs(name)
         && NameOk(b', name, i, next) && ViewName(b', name) == t
  }

  ghost predicate DataOutcome(
      b: Text, b': Text, i: nat, spec: Parsed<Data<Text>>, ret: int, index: nat, obj: Option<Data<Ref>>, refs: int) {
    && Kept(b, b', i)
    && match spec
       case Err(code) => ret == code && obj == None && refs == 0
       case Ok(d, next) =>
         ret == JSON_OK && index == next && obj.Some? && SameFrom(b, b', next)
         && DataOk(b', obj.value, i, next) && ViewData(b', obj.value) == d && refs == DataRefs(obj.value)
  }

  ghost predicate KidOutcome(
      b: Text, b': Text, i: nat, spec: Parsed<Node<Text>>, ret: int, index: nat, kid: Option<Node<Ref>>, refs: int) {
    && Kept(b, b', i)
    && match spec
       case Err(code) => ret == code && kid == None && refs == 0
       case Ok(n, next) =>
         ret == JSON_OK && index == next && kid.Some? && SameFrom(b, b', next)
         && NameOk(b', kid.value.name, i, next) && DataOk(b', kid.value.data, i, next)
         && ViewNode(b', kid.value) == n && refs == NodeRefs(kid.value)
  }

  lemma FloatCharAppend(s: Text, c: Byte)
    ensures HasFloatChar(s + [c]) <==> HasFloatChar(s) || IsFloatChar(c)
  {
    if HasFloatChar(s) {
      var k :| 0 <= k < |s| && IsFloatChar(s[k]);
      assert (s + [c])[k] == s[k];
    }
    if IsFloatChar(c) {
      assert (s + [c])[|s|] == c;
    }
  }

  lemma {:induction false} CStrBeforeNul(s: Text, n: nat)
    requires n < |s| && s[n] == 0
    ensures CStr(s) == CStr(s[..n])
  {
    var m := |CStr(s[..n])|;
    assert s[..m] == s[..n][..m] == CStr(s[..n]);
    CStrUnique(s, m);
  }

  /** After tagging and terminating, the string reads as the C string of the bytes between. */
  lemma ReferenceReads(b: Text, b': Text, from: nat, to: nat, hi: nat)
    requires 0 < from <= to < hi <= |b|
    requires b' == b[from - 1 := REFERENCE_TAG][to := 0]
    ensures StrOk(b', from, from - 1, hi) && ReadStr(b', from) == CStr(b[from..to])
  {
    CStrBeforeNul(b'[from..], to - from);
    assert b'[from..][..to - from] == b[from..to];
  }

  lemma NameStays(b: Text, b': Text, name: Option<Ref>, lo: nat, hi: nat, hi': nat)
    requires NameOk(b, name, lo, hi) && Kept(b, b', hi) && hi <= hi' <= |b|
    ensures NameOk(b', name, lo, hi') && ViewName(b', name) == ViewName(b, name)
    ensures name.Some? ==> 0 < name.value <= |b'| && b'[name.value - 1] == REFERENCE_TAG
  {
    if name.Some? {
      StrFrame(b, b', name.value, lo, hi);
    }
  }

  lemma DataStays(b: Text, b': Text, d: Data<Ref>, lo: nat, hi: nat, lo': nat, hi': nat)
    requires DataOk(b, d, lo, hi) && Kept(b, b', hi) && lo' <= lo && hi <= hi' <= |b|
    ensures DataOk(b', d, lo', hi') && ViewData(b', d) == ViewData(b, d)
  {
    DataFrame(b, b', d, lo, hi);
    DataWiden(b', d, lo, hi, lo', hi');
  }

  /** Children parsed so far are unaffected by parsing one more. */
  lemma KidsGrow(b: Text, b': Text, kids: seq<Node<Ref>>, kid: Node<Ref>, lo: nat, i: nat, next: nat)
    requires KidsOk(b, kids, lo, i) && Kept(b, b', i) && lo <= i <= next <= |b|
    requires NameOk(b', kid.name, i, next) && DataOk(b', kid.data, i, next)
    ensures KidsOk(b', kids + [kid], lo, next)
    ensures ViewKids(b', kids + [kid]) == ViewKids(b, kids) + [ViewNode(b', kid)]
  {
    forall k | 0 <= k < |kids|
      ensures NameOk(b', kids[k].name, lo, next) && DataOk(b', kids[k].data, lo, next)
      ensures ViewNode(b', kids[k]) == ViewNode(b, kids[k])
    {
      NameStays(b, b', kids[k].name, lo, i, next);
      DataStays(b, b', kids[k].data, lo, i, lo, next);
    }
    DataWiden(b', kid.data, i, next, lo, next);
    assert ViewKids(b', kids + [kid]) == ViewKids(b, kids) + [ViewNode(b', kid)];
  }

  /** Skipping white space first only widens the range that may have been touched. */
  lemma OutcomeFromSpace(
      b: Text, b': Text, i: nat, j: nat, spec: Parsed<Data<Text>>, ret: int, index: nat, obj: Option<Data<Ref>>,
      refs: int)
    requires i <= j && DataOutcome(b, b', j, spec, ret, index, obj, refs)
    requires spec.Ok? ==> spec.next <= |b|
    ensures DataOutcome(b, b', i, spec, ret, index, obj, refs)
  {
    if spec.Ok? {
      DataWiden(b', obj.value, j, index, i, index);
    }
  }

  lemma StartKids(b: Text, lo: nat, j: nat, isArray: bool, strtod: Strtod)
    requires IsBuffer(b) && j < Size(b) < SIZE_MODULUS
    ensures KidsOk(b, [], lo, j) && KidsRefs([]) == 0 && ViewKids(b, []) == []
    ensures PKids(b, j, isArray, strtod) == AddKids([], PKids(b, j, isArray, strtod))
    ensures b[j] == EndChar(isArray) ==> PKids(b, j, isArray, strtod) == Ok([], j + 1)
  {
    var r := PKids(b, j, isArray, strtod);
    if r.Ok? {
      assert [] + r.value == r.value;
    }
  }

  lemma ContOk(b: Text, isArray: bool, kids: seq<Node<Ref>>, lo: nat, hi: nat, hi': nat)
    requires KidsOk(b, kids, lo, hi) && hi <= hi' <= |b|
    ensures DataOk(b, Cont(isArray, kids), lo, hi') && DataRefs(Cont(isArray, kids)) == KidsRefs(kids)
  {
    assert DataOk(b, Cont(isArray, kids), lo, hi);
    DataWiden(b, Cont(isArray, kids), lo, hi, lo, hi');
  }

  lemma KidsStay(b: Text, b': Text, kids: seq<Node<Ref>>, lo: nat, hi: nat)
    requires KidsOk(b, kids, lo, hi) && Kept(b, b', hi)
    ensures KidsOk(b', kids, lo, hi)
  {
    KidsFrame(b, b', kids, lo, hi);
  }

  lemma KidsWiden(b: Text, kids: seq<Node<Ref>>, lo: nat, hi: nat, hi': nat)
    requires KidsOk(b, kids, lo, hi) && hi <= hi' <= |b|
    ensures KidsOk(b, kids, lo, hi')
  {
    forall k | 0 <= k < |kids|
      ensures DataOk(b, kids[k].data, lo, hi')
    {
      DataWiden(b, kids[k].data, lo, hi, lo, hi');
    }
  }

  lemma AddToErr(kids: seq<Node<Text>>, code: int)
    ensures AddKids(kids, Err(code)) == Err(code)
  {}

  lemma AddLast(kids: seq<Node<Text>>, n: Node<Text>, next: nat)
    ensures AddKids(kids, Ok([n], next)) == Ok(kids + [n], next)
  {}

  lemma AddNone(kids: seq<Node<Text>>, next: nat)
    ensures AddKids(kids, Ok([], next)) == Ok(kids, next)
  {
    assert kids + [] == kids;
  }

  lemma AddAssoc(kids: seq<Node<Text>>, n: Node<Text>, rest: Parsed<seq<Node<Text>>>)
    ensures AddKids(kids, AddKids([n], rest)) == AddKids(kids + [n], rest)
  {
    if rest.Ok? {
      assert kids + ([n] + rest.value) == kids + [n] + rest.value;
    }
  }

  class Parser {
    const bytes: array<Byte>
    var index: nat
    var refCount: int
    var freed: nat

    /** The parser or some string holds the buffer. */
    ghost predicate Held()
      reads this, bytes
    {
      IsBuffer(bytes[..]) && bytes.Length <= SIZE_MODULUS && refCount >= 1 && freed == 0
    }

    function BufSize(): int
    {
      bytes.Length - 1
    }

    method SkipWhitespace() returns (more: bool)
      requires IsBuffer(bytes[..]) && index <= BufSize()
      modifies this`index
      ensures index == SkipSpace(bytes[..], old(index))
      ensures more <==> index < BufSize()
    {
      var idx := index;
      while idx < BufSize()
        invariant old(index) <= idx <= BufSize()
        invariant SkipSpace(bytes[..], old(index)) == SkipSpace(bytes[..], idx)
      {
        if !IsSpace(bytes[idx]) {
          break;
        }
        idx := idx + 1;
      }
      index := idx;
      more := idx < BufSize();
    }

    /**
      Decodes the string between `from` and the closing quote at `to` in place.
      Returns the number of bytes that the text is shorter, or an error code.
    */
    method UnescapeString(from: nat, to: nat) returns (count: int)
      requires IsBuffer(bytes[..]) && from <= to < bytes.Length && Paired(bytes[..], from, to)
      modifies bytes
      ensures Kept(old(bytes[..]), bytes[..], from) && SameFrom(old(bytes[..]), bytes[..], to)
      ensures match Unescape(old(bytes[..]), from, to)
              case Invalid(code) => count == code
              case Text(t) => count == to - from - |t| && count >= 0 && bytes[from..from + |t|] == t
    {
      hide Decoded, Unescape, Paired, Prepend, Utf8, UnicodeAt;
      ghost var b := bytes[..];
      var str, dst := from, from;
      count := 0;
      StartDecoding(b, from, to);
      while str < to
        invariant from <= dst <= str <= to
        invariant count == str - dst
        invariant Decoded(b, bytes[..], from, dst, str, to)
      {
        DecodedFacts(b, bytes[..], from, dst, str, to);
        if bytes[str] == BACKSLASH {
          var cut;
          cut, dst, str := DecodeEscape(from, dst, str, to, b);
          if cut < 0 {
            count := cut;
            return;
          }
          count := count + cut;
        } else {
          UnescapeStep(b, str, to);
          DecodeStep(b, bytes[..], from, dst, str, to, [b[str]], str + 1);
          ghost var cur := bytes[..];
          if str != dst {
            Put(dst, bytes[str]);
          }
          assert bytes[..] == Overwrite(cur, dst, [b[str]]);
          str := str + 1;
          dst := dst + 1;
        }
      }
      DecodedEnd(b, bytes[..], from, dst, to);
    }

    /** Decodes the escape at `str`; returns by how much the text shrank, and the new cursors. */
    method DecodeEscape(from: nat, dst: nat, str: nat, to: nat, ghost b: Text) returns (cut: int, dst': nat, str': nat)
      requires IsBuffer(b) && Decoded(b, bytes[..], from, dst, str, to) && str < to && bytes[str] == BACKSLASH
      modifies bytes
      ensures cut < 0 ==> Kept(b, bytes[..], from) && SameFrom(b, bytes[..], to)
                          && from <= to < |b| && Paired(b, from, to) && Unescape(b, from, to) == Invalid(cut)
      ensures cut >= 0 ==> Decoded(b, bytes[..], from, dst', str', to) && str < str' <= to && from <= dst' <= str'
      ensures cut >= 0 ==> cut == (str' - dst') - (str - dst)
    {
      hide Decoded, Unescape, Paired, Prepend, Utf8, UnicodeAt, Overwrite, SimpleEscape;
      ghost var cur := bytes[..];
      DecodedFacts(b, cur, from, dst, str, to);
      UnescapeStep(b, str, to);
      str', dst', cut := str + 1, dst, 1;
      if bytes[str'] == 117 {
        var ch := UnicodeAt(bytes[..], str' + 1, to);
        UnicodeAtFrame(b, cur, str, str' + 1, to);
        if ch < 0 {
          DecodedInvalid(b, cur, from, dst, str, to);
          cut := ch;
          return;
        }
        DecodeStep(b, cur, from, dst, str, to, Utf8(ch), str + 6);
        PutUnicode(dst, ch);
        cut := cut + (if ch < 0x800 then 3 else 2);
        dst' := dst' + (if ch < 0x800 then 1 else 2);
        str' := str' + 4;
      } else {
        var c := SimpleEscape(bytes[str']);
        if c.None? {
          DecodedInvalid(b, cur, from, dst, str, to);
          cut := STRING_INVALID_ESC;
          return;
        }
        DecodeStep(b, cur, from, dst, str, to, [c.value], str + 2);
        Put(dst, c.value);
      }
      str' := str' + 1;
      dst' := dst' + 1;
    }

    method Put(at: nat, c: Byte)
      requires at < bytes.Length
      modifies bytes
      ensures bytes[..] == Overwrite(old(bytes[..]), at, [c])
    {
      bytes[at] := c;
    }

    /** Stores a code point in its 2-byte or 3-byte form. */
    method PutUnicode(at: nat, ch: nat)
      requires 0x80 <= ch < 0x10000 && at + |Utf8(ch)| <= bytes.Length
      modifies bytes
      ensures bytes[..] == Overwrite(old(bytes[..]), at, Utf8(ch))
    {
      if ch < 0x800 {
        bytes[at] := 0xC0 + ch / 64;
        bytes[at + 1] := 0x80 + ch % 64;
      } else {
        bytes[at] := 0xE0 + ch / 4096;
        bytes[at + 1] := 0x80 + ch / 64 % 64;
        bytes[at + 2] := 0x80 + ch % 64;
      }
    }

    // -------------------------------------------------------------------
    // Reference counting
    // -------------------------------------------------------------------

    method BufHold()
      modifies this`refCount
      ensures refCount == old(refCount) + 1
    {
      refCount := refCount + 1;
    }

    /** Drops one reference; the last one frees the buffer. */
    method BufRele()
      requires refCount >= 1
      modifies this`refCount, this`freed
      ensures refCount == old(refCount) - 1
      ensures freed == old(freed) + (if old(refCount) == 1 then 1 else 0)
    {
      refCount := refCount - 1;
      if refCount == 0 {
        freed := freed + 1;
      }
    }

    /** Tags and terminates a string inside the buffer and takes a reference. */
    method StrReference(from: nat, to: nat) returns (off: Ref)
      requires 0 < from <= to < bytes.Length
      modifies this`refCount, bytes
      ensures off == from && refCount == old(refCount) + 1
      ensures bytes[..] == old(bytes[..])[from - 1 := REFERENCE_TAG][to := 0]
    {
      BufHold();
      bytes[from - 1] := REFERENCE_TAG;
      bytes[to] := 0;
      off := from;
    }

    /** Releases a string; only the buffer it lies in is concerned. */
    method StrFree(off: Ref)
      requires 0 < off <= bytes.Length && bytes[off - 1] == REFERENCE_TAG
      requires refCount >= 1 && freed == 0
      modifies this`refCount, this`freed
      ensures refCount == old(refCount) - 1
      ensures freed == if refCount == 0 then 1 else 0
    {
      BufRele();
    }

    // -------------------------------------------------------------------
    // Strings, numbers and literals
    // -------------------------------------------------------------------

    /** Scans to the closing quote, stepping over escaped characters. */
    method ScanString() returns (ret: int, to: nat, escaped: bool)
      requires IsBuffer(bytes[..]) && index <= BufSize()
      modifies this`index
      ensures match FindQuote(bytes[..], old(index), false)
              case Err(code) => ret == code
              case Ok(e, next) => ret == JSON_OK && to == next && escaped == e && index == next + 1
    {
      ghost var b := bytes[..];
      var idx := index;
      escaped := false;
      while bytes[idx] != QUOTE
        invariant old(index) <= idx <= BufSize()
        invariant FindQuote(b, old(index), false) == FindQuote(b, idx, escaped)
        decreases BufSize() - idx
      {
        if bytes[idx] == LF {
          index := idx;
          return STRING_UNESCAPED, idx, escaped;
        }
        if bytes[idx] == BACKSLASH {
          idx := idx + 1;
          escaped := true;
        }
        if idx >= BufSize() {
          index := idx;
          return END_OF_BUFFER, idx, escaped;
        }
        idx := idx + 1;
      }
      index := idx + 1;
      ret, to := JSON_OK, idx;
    }

    /** Parses the string whose opening quote is at the index. */
    method ParseString() returns (ret: int, off: Ref)
      requires Held() && index < BufSize()
      modifies this`index, this`refCount, bytes
      ensures StrOutcome(old(bytes[..]), bytes[..], old(index), PString(old(bytes[..]), old(index)), ret, index, off,
                         refCount - old(refCount))
    {
      hide FindQuote, Unescape, Paired, StrOk, ReadStr, CStr;
      ghost var b := bytes[..];
      off := 0;
      index := index + 1;
      var from := index;
      var to, escaped;
      ret, to, escaped := ScanString();
      if ret != JSON_OK {
        return;
      }
      ghost var end := to;
      if escaped {
        ret := UnescapeString(from, to);
        if ret < 0 {
          return;
        }
        to := to - ret;
      }
      ghost var b1 := bytes[..];
      assert escaped ==> b1[from..to] == Unescape(b, from, end).text;
      off := StrReference(from, to);
      ReferenceReads(b1, bytes[..], from, to, index);
      ret := JSON_OK;
    }

    /** Parses a number; the conversions of the C library look at the bytes from the literal on. */
    method ParseNumber(strtod: Strtod) returns (ret: int, obj: Option<Data<Ref>>)
      requires IsBuffer(bytes[..]) && index < BufSize() && IsIntChar(bytes[index])
      modifies this`index
      ensures match PNumber(bytes[..], old(index), strtod)
              case Err(code) => ret == code && obj == None
              case Ok(d, next) => ret == JSON_OK && index == next && obj.Some?
                                  && (obj.value.Int? || obj.value.Float?) && ViewData(bytes[..], obj.value) == d
    {
      ghost var b := bytes[..];
      var start, idx := index, index;
      var isFloat := false;
      while idx < BufSize()
        invariant start <= idx <= BufSize()
        invariant NumberEnd(b, start) == NumberEnd(b, idx)
        invariant isFloat <==> HasFloatChar(b[start..idx])
      {
        if !IsIntChar(bytes[idx]) && !IsFloatChar(bytes[idx]) {
          break;
        }
        assert b[start..idx + 1] == b[start..idx] + [b[idx]];
        FloatCharAppend(b[start..idx], b[idx]);
        isFloat := isFloat || IsFloatChar(bytes[idx]);
        idx := idx + 1;
      }
      index := idx;
      obj := None;
      var value: real, number: int, consumed, range := 0.0, 0, 0, false;
      if isFloat {
        var f := strtod(bytes[start..]);
        value, consumed, range := f.value, f.consumed, f.range;
      } else {
        var n := StrToLL(bytes[start..]);
        number, consumed, range := n.value, n.consumed, n.range;
      }
      if range {
        return NUMBER_OVERFLOW, None;
      }
      if consumed != idx - start {
        return NUMBER_INVALID, None;
      }
      ret := JSON_OK;
      obj := Some(if isFloat then Float(value) else Int(number));
    }

    method ParseLiteral(lit: Text) returns (ret: int)
      requires IsBuffer(bytes[..]) && index < BufSize() < SIZE_MODULUS && 0 < |lit| <= 5 && 0 !in lit
      modifies this`index
      ensures match PLiteral(bytes[..], old(index), lit)
              case Err(code) => ret == code
              case Ok(_, next) => ret == JSON_OK && index == next
    {
      if index >= (BufSize() - |lit|) % SIZE_MODULUS {
        return END_OF_BUFFER;
      }
      var k := 0;
      assert lit[k..] == lit;
      while k < |lit|
        invariant k <= |lit| && index == old(index) && index + k <= BufSize()
        invariant Matches(bytes[..], index, lit) == Matches(bytes[..], index + k, lit[k..])
      {
        assert lit[k] in lit;
        if bytes[index + k] != lit[k] {
          return LITERAL_INVALID;
        }
        assert lit[k..][1..] == lit[k + 1..];
        k := k + 1;
      }
      index := index + |lit|;
      ret := JSON_OK;
    }

    // -------------------------------------------------------------------
    // Destroying and copying trees
    // -------------------------------------------------------------------

    /** Whether strings are left, the buffer is in memory exactly once. */
    ghost predicate Live()
      reads this
    {
      refCount >= 0 && (refCount > 0 ==> freed == 0)
    }

    /** Destroys a tree: each of its strings releases the buffer once. */
    method DestroyNode(n: Node<Ref>, ghost lo: nat, ghost hi: nat)
      requires Live() && refCount >= NodeRefs(n)
      requires NameOk(bytes[..], n.name, lo, hi) && DataOk(bytes[..], n.data, lo, hi)
      modifies this`refCount, this`freed
      ensures Live() && refCount == old(refCount) - NodeRefs(n)
      ensures freed == old(freed) + (if NodeRefs(n) > 0 && refCount == 0 then 1 else 0)
      decreases n
    {
      if n.data.Cont? {
        DestroyKids(n.data.kids, lo, hi);
      }
      if n.name.Some? {
        StrFree(n.name.value);
      }
      if n.data.Str? {
        StrFree(n.data.s);
      }
    }

    method DestroyKids(kids: seq<Node<Ref>>, ghost lo: nat, ghost hi: nat)
      requires Live() && refCount >= KidsRefs(kids)
      requires KidsOk(bytes[..], kids, lo, hi)
      modifies this`refCount, this`freed
      ensures Live() && refCount == old(refCount) - KidsRefs(kids)
      ensures freed == old(freed) + (if KidsRefs(kids) > 0 && refCount == 0 then 1 else 0)
      decreases kids
    {
      var k := 0;
      assert kids[k..] == kids;
      while k < |kids|
        invariant k <= |kids| && Live() && KidsRefs(kids[k..]) <= refCount <= old(refCount)
        invariant refCount - KidsRefs(kids[k..]) == old(refCount) - KidsRefs(kids)
        invariant freed == old(freed) + (if old(refCount) > refCount && refCount == 0 then 1 else 0)
      {
        assert kids[k..][1..] == kids[k + 1..];
        DestroyNode(kids[k], lo, hi);
        k := k + 1;
      }
    }

    /** Copies a tree: reference strings are shared, and each copy holds the buffer. */
    method CopyNode(n: Node<Ref>) returns (copy: Node<Ref>)
      requires Live() && (refCount > 0 || NodeRefs(n) == 0)
      modifies this`refCount
      ensures Live() && refCount == old(refCount) + NodeRefs(n)
      ensures copy == n
      decreases n
    {
      if n.name.Some? {
        BufHold();
      }
      if n.data.Str? {
        BufHold();
      }
      if n.data.Cont? {
        var kids: seq<Node<Ref>> := [];
        var k := 0;
        while k < |n.data.kids|
          invariant k <= |n.data.kids| && kids == n.data.kids[..k]
          invariant Live() && (refCount > 0 || NodeRefs(n) == 0)
          invariant refCount == old(refCount) + NameRefs(n.name) + KidsRefs(kids)
        {
          KidsRefsAt(n.data.kids, k);
          var c := CopyNode(n.data.kids[k]);
          KidsRefsAppend(kids, c);
          assert n.data.kids[..k + 1] == n.data.kids[..k] + [n.data.kids[k]];
          kids := kids + [c];
          k := k + 1;
        }
        assert kids == n.data.kids;
        copy := Node(n.name, Cont(n.data.isArray, kids));
      } else {
        copy := n;
      }
    }

    // -------------------------------------------------------------------
    // Values
    // -------------------------------------------------------------------

    /** Parses the name of a child and its colon; a name that is not followed by one is released. */
    method ParseName(isArray: bool) returns (ret: int, name: Option<Ref>)
      requires Held() && index < BufSize()
      modifies this, bytes
      ensures Held()
      ensures NameOutcome(old(bytes[..]), bytes[..], old(index), PName(old(bytes[..]), old(index), isArray),
                          ret, index, name, refCount - old(refCount))
    {
      hide PString, StrOk, ReadStr, SkipSpace;
      name := None;
      if isArray {
        return JSON_OK, None;
      }
      if bytes[index] != QUOTE {
        return OBJECT_INVALID, None;
      }
      ghost var b := bytes[..];
      var off;
      ret, off := ParseString();
      if ret != JSON_OK {
        return;
      }
      ghost var b1, next := bytes[..], index;
      SkipSpaceFrame(b, b1, next);
      NameStays(b1, b1, Some(off), old(index), next, next);
      var more := SkipWhitespace();
      if !more {
        StrFree(off);
        return END_OF_BUFFER, None;
      }
      if bytes[index] != COLON {
        StrFree(off);
        return OBJECT_INVALID, None;
      }
      index := index + 1;
      NameStays(b1, b1, Some(off), old(index), next, index);
      name := Some(off);
    }

    /** Parses one child up to its delimiter; on failure everything it held is released. */
    method ParseChild(isArray: bool, strtod: Strtod) returns (ret: int, kid: Option<Node<Ref>>)
      requires Held() && index < BufSize()
      modifies this, bytes
      ensures Held()
      ensures KidOutcome(old(bytes[..]), bytes[..], old(index), PChild(old(bytes[..]), old(index), isArray, strtod),
                         ret, index, kid, refCount - old(refCount))
      decreases BufSize() - index, 3
    {
      hide PName, PValue, StrOk, ReadStr, SkipSpace, NameOk, ViewName, DataOk, ViewData, DataRefs;
      ghost var b, i := bytes[..], index;
      kid := None;
      var name, obj;
      ret, name := ParseName(isArray);
      if ret != JSON_OK {
        return;
      }
      ghost var b1, p := bytes[..], index;
      PValueFrame(b, b1, p, strtod);
      ret, obj := ParseValue(strtod);
      ghost var b2 := bytes[..];
      NameStays(b1, b2, name, i, p, p);
      if ret != JSON_OK {
        if name.Some? {
          StrFree(name.value);
        }
        return;
      }
      ghost var q := index;
      SkipSpaceFrame(b, b2, q);
      var more := SkipWhitespace();
      if !more {
        if name.Some? {
          StrFree(name.value);
        }
        DestroyNode(Node(None, obj.value), p, q);
        return END_OF_BUFFER, None;
      }
      NameStays(b1, b2, name, i, p, index);
      DataStays(b2, b2, obj.value, p, q, i, index);
      kid := Some(Node(name, obj.value));
    }

    method ParseValue(strtod: Strtod) returns (ret: int, obj: Option<Data<Ref>>)
      requires Held() && index <= BufSize()
      modifies this, bytes
      ensures Held()
      ensures DataOutcome(old(bytes[..]), bytes[..], old(index), PValue(old(bytes[..]), old(index), strtod),
                          ret, index, obj, refCount - old(refCount))
      decreases BufSize() - index, 2
    {
      hide PString, PNumber, PLiteral, PContainer, StrOk, ReadStr, SkipSpace;
      ghost var b, i := bytes[..], index;
      obj := None;
      var more := SkipWhitespace();
      if !more {
        return END_OF_BUFFER, None;
      }
      ghost var j := index;
      if bytes[index] == OPEN_OBJ {
        ret, obj := ParseNode(false, strtod);
        OutcomeFromSpace(b, bytes[..], i, j, PContainer(b, j, false, strtod), ret, index, obj,
                         refCount - old(refCount));
      } else if bytes[index] == OPEN_ARR {
        ret, obj := ParseNode(true, strtod);
        OutcomeFromSpace(b, bytes[..], i, j, PContainer(b, j, true, strtod), ret, index, obj, refCount - old(refCount));
      } else if bytes[index] == QUOTE {
        var off;
        ret, off := ParseString();
        if ret == JSON_OK {
          obj := Some(Str(off));
          DataWiden(bytes[..], Str(off), j, index, i, index);
        }
      } else if bytes[index] == TRUE_TEXT[0] {
        ret := ParseLiteral(TRUE_TEXT);
        obj := if ret == JSON_OK then Some(Bool(true)) else None;
      } else if bytes[index] == FALSE_TEXT[0] {
        ret := ParseLiteral(FALSE_TEXT);
        obj := if ret == JSON_OK then Some(Bool(false)) else None;
      } else if bytes[index] == NULL_TEXT[0] {
        ret := ParseLiteral(NULL_TEXT);
        obj := if ret == JSON_OK then Some(Null) else None;
      } else if IsIntChar(bytes[index]) {
        ret, obj := ParseNumber(strtod);
      } else {
        ret := VALUE_INVALID;
      }
    }

    /** Parses an object or array; a partially built tree is destroyed on failure. */
    method ParseNode(isArray: bool, strtod: Strtod) returns (ret: int, obj: Option<Data<Ref>>)
      requires Held() && index < BufSize()
      modifies this, bytes
      ensures Held()
      ensures DataOutcome(old(bytes[..]), bytes[..], old(index),
                          PContainer(old(bytes[..]), old(index), isArray, strtod),
                          ret, index, obj, refCount - old(refCount))
      decreases BufSize() - index, 1
    {
      hide PKids, PChild, AddKids, SkipSpace, KidsOk, ViewKids, KidsRefs, ViewData, DataOk, KidOutcome;
      ghost var b, lo := bytes[..], index;
      obj := None;
      index := index + 1;
      var more := SkipWhitespace();
      if !more {
        return END_OF_BUFFER, None;
      }
      ghost var j := index;
      var kids: seq<Node<Ref>> := [];
      StartKids(b, lo, j, isArray, strtod);
      var open := bytes[index] != EndChar(isArray);
      while open
        invariant Held() && lo < index < BufSize()
        invariant Kept(b, bytes[..], lo) && SameFrom(b, bytes[..], index)
        invariant KidsOk(bytes[..], kids, lo, index) && refCount == old(refCount) + KidsRefs(kids)
        invariant open ==> b[index] != EndChar(isArray)
                           && PKids(b, j, isArray, strtod)
                              == AddKids(ViewKids(bytes[..], kids), PKids(b, index, isArray, strtod))
        invariant !open ==> PKids(b, j, isArray, strtod) == Ok(ViewKids(bytes[..], kids), index + 1)
        decreases BufSize() - index, open
      {
        ret, kids, open := ParseMember(isArray, strtod, kids, b, lo, j);
        if ret != JSON_OK {
          return;
        }
      }
      index := index + 1;
      ViewCont(bytes[..], isArray, kids);
      ContOk(bytes[..], isArray, kids, lo, index - 1, index);
      ret := JSON_OK;
      obj := Some(Cont(isArray, kids));
    }

    /** One turn of the child loop: a child, its delimiter and the white space after a comma. */
    method ParseMember(isArray: bool, strtod: Strtod, kids: seq<Node<Ref>>, ghost b: Text, ghost lo: nat, ghost j: nat)
      returns (ret: int, kids': seq<Node<Ref>>, open: bool)
      requires Held() && lo < index < BufSize() && IsBuffer(b) && j < Size(b)
      requires Kept(b, bytes[..], lo) && SameFrom(b, bytes[..], index)
      requires KidsOk(bytes[..], kids, lo, index) && refCount > KidsRefs(kids)
      requires b[index] != EndChar(isArray)
      requires PKids(b, j, isArray, strtod) == AddKids(ViewKids(bytes[..], kids), PKids(b, index, isArray, strtod))
      modifies this, bytes
      ensures Held() && Kept(b, bytes[..], lo)
      ensures ret != JSON_OK ==> PKids(b, j, isArray, strtod) == Err(ret) && refCount == old(refCount) - KidsRefs(kids)
      ensures ret == JSON_OK ==> old(index) < index < BufSize() && SameFrom(b, bytes[..], index)
      ensures ret == JSON_OK ==> KidsOk(bytes[..], kids', lo, index)
      ensures ret == JSON_OK ==> refCount - KidsRefs(kids') == old(refCount) - KidsRefs(kids)
      ensures ret == JSON_OK && open ==> b[index] != EndChar(isArray)
      ensures ret == JSON_OK && open ==>
                PKids(b, j, isArray, strtod) == AddKids(ViewKids(bytes[..], kids'), PKids(b, index, isArray, strtod))
      ensures ret == JSON_OK && !open ==> PKids(b, j, isArray, strtod) == Ok(ViewKids(bytes[..], kids'), index + 1)
      decreases BufSize() - index, 4
    {
      hide PKids, PChild, AddKids, SkipSpace, KidsOk, ViewKids, KidsRefs, ViewData, DataOk, NameOk, NodeRefs,
           ViewNode, ViewName;
      ghost var b0, i, view := bytes[..], index, ViewKids(bytes[..], kids);
      PKidsUnfold(b, i, isArray, strtod);
      PChildFrame(b, b0, i, isArray, strtod);
      kids', open := kids, true;
      var kid;
      ret, kid := ParseChild(isArray, strtod);
      KidsStay(b0, bytes[..], kids, lo, i);
      if ret != JSON_OK {
        AddToErr(view, ret);
        DestroyKids(kids, lo, i);
        return;
      }
      KidsGrow(b0, bytes[..], kids, kid.value, lo, i, index);
      KidsRefsAppend(kids, kid.value);
      kids' := kids + [kid.value];
      ret, open := ParseDelimiter(isArray, kids', b, lo);
      ghost var n := ViewNode(bytes[..], kid.value);
      if ret != JSON_OK {
        AddToErr(view, ret);
      } else if open {
        AddAssoc(view, n, PKids(b, index, isArray, strtod));
      } else {
        AddAssoc(view, n, Ok([], index + 1));
        AddNone(view + [n], index + 1);
        AddLast(view, n, index + 1);
        if index != PChild(b, i, isArray, strtod).next {
          PKidsUnfold(b, index, isArray, strtod);
        }
      }
    }

    /** After a child: the closing bracket, or a comma and the white space that follows it. */
    method ParseDelimiter(isArray: bool, kids: seq<Node<Ref>>, ghost b: Text, ghost lo: nat)
      returns (ret: int, open: bool)
      requires Held() && index < BufSize() && IsBuffer(b) && SameFrom(b, bytes[..], index)
      requires KidsOk(bytes[..], kids, lo, index) && refCount > KidsRefs(kids)
      modifies this`index, this`refCount, this`freed
      ensures Held()
      ensures ret != JSON_OK ==> refCount == old(refCount) - KidsRefs(kids)
      ensures ret == JSON_OK ==> refCount == old(refCount) && KidsOk(bytes[..], kids, lo, index)
      ensures ret == JSON_OK ==> old(index) <= index < BufSize() && (open <==> b[index] != EndChar(isArray))
      ensures b[old(index)] == EndChar(isArray) ==> ret == JSON_OK && index == old(index)
      ensures b[old(index)] != EndChar(isArray) && b[old(index)] != COMMA ==> ret == OBJECT_INVALID
      ensures b[old(index)] != EndChar(isArray) && b[old(index)] == COMMA ==>
                var n := SkipSpace(b, old(index) + 1);
                if n == Size(b) then ret == END_OF_BUFFER else ret == JSON_OK && index == n
    {
      hide KidsOk, KidsRefs, SkipSpace;
      ret, open := JSON_OK, false;
      if bytes[index] == EndChar(isArray) {
        return;
      }
      if bytes[index] != COMMA {
        DestroyKids(kids, lo, index);
        return OBJECT_INVALID, true;
      }
      ghost var k := index;
      index := index + 1;
      SkipSpaceFrame(b, bytes[..], index);
      var more := SkipWhitespace();
      if !more {
        DestroyKids(kids, lo, k);
        return END_OF_BUFFER, true;
      }
      KidsWiden(bytes[..], kids, lo, k, index);
      open := bytes[index] != EndChar(isArray);
    }

    /** A fresh copy of `data` with a terminator. */
    constructor (data: Text)
      requires |data| < SIZE_MODULUS
      ensures fresh(bytes) && bytes[..] == data + [0]
      ensures index == 0 && refCount == 0 && freed == 0
    {
      var n := |data|;
      bytes := new Byte[n + 1](i => if 0 <= i < n then data[i] else 0);
      index, refCount, freed := 0, 0, 0;
    }

    /**
      Parses a whole buffer under the parser's own hold. The tree reads as the
      pure grammar says of the untouched buffer; afterwards the buffer is held
      once per string of the tree, and freed if there is none.
    */
    method Parse(strtod: Strtod) returns (ret: int, root: Option<Node<Ref>>)
      requires IsBuffer(bytes[..]) && bytes.Length <= SIZE_MODULUS && refCount == 0 && freed == 0
      modifies this, bytes
      ensures IsBuffer(bytes[..])
      ensures match PParse(old(bytes[..]), strtod)
              case Err(code) => ret == code && root == None && refCount == 0
              case Ok(n, next) => ret == JSON_OK && root.Some? && ViewNode(bytes[..], root.value) == n
                                  && root.value.name == None && DataOk(bytes[..], root.value.data, 0, bytes.Length)
                                  && refCount == NodeRefs(root.value)
      ensures freed == if refCount == 0 then 1 else 0
    {
      hide PValue, ViewData, DataOk, DataRefs;
      index := 0;
      root := None;
      BufHold();
      var obj;
      ret, obj := ParseValue(strtod);
      BufRele();
      if ret == JSON_OK {
        DataWiden(bytes[..], obj.value, 0, index, 0, bytes.Length);
        root := Some(Node(None, obj.value));
      }
    }
  }

  /**
    A buffer together with the trees that callers hold. Whatever is copied and
    destroyed, the reference count is the number of live reference strings, and
    the buffer is freed exactly once, when the last of them is gone.
  */
  class Session {
    const p: Parser
    var parsed: bool
    var trees: seq<Node<Ref>>

    ghost predicate Valid()
      reads this, p, p.bytes
    {
      && IsBuffer(p.bytes[..]) && p.bytes.Length <= SIZE_MODULUS
      && KidsOk(p.bytes[..], trees, 0, p.bytes.Length)
      && p.refCount == KidsRefs(trees)
      && p.freed == (if parsed && p.refCount == 0 then 1 else 0)
      && (!parsed ==> trees == [])
    }

    constructor (data: Text)
      requires |data| < SIZE_MODULUS
      ensures Valid() && !parsed && trees == [] && p.bytes[..] == data + [0]
      ensures fresh(p) && fresh(p.bytes)
    {
      p := new Parser(data);
      parsed, trees := false, [];
    }

    method Parse(strtod: Strtod) returns (ret: int)
      requires Valid() && !parsed
      modifies this, p, p.bytes
      ensures Valid() && parsed
      ensures match PParse(old(p.bytes[..]), strtod)
              case Err(code) => ret == code && trees == []
              case Ok(n, next) => ret == JSON_OK && |trees| == 1 && ViewNode(p.bytes[..], trees[0]) == n
    {
      var root;
      ret, root := p.Parse(strtod);
      parsed := true;
      if root.Some? {
        trees := [root.value];
        assert trees[1..] == [];
      }
    }

    method Copy(k: nat)
      requires Valid() && k < |trees|
      modifies this, p
      ensures Valid() && parsed == old(parsed)
      ensures trees == old(trees) + [old(trees)[k]]
    {
      KidsRefsAt(trees, k);
      var copy := p.CopyNode(trees[k]);
      KidsRefsAppend(trees, copy);
      trees := trees + [copy];
    }

    method Destroy(k: nat)
      requires Valid() && k < |trees|
      modifies this, p
      ensures Valid() && parsed == old(parsed)
      ensures trees == old(trees)[..k] + old(trees)[k + 1..]
    {
      KidsRefsAt(trees, k);
      KidsRefsRemove(trees, k);
      p.DestroyNode(trees[k], 0, p.bytes.Length);
      trees := trees[..k] + trees[k + 1..];
    }
  }
}
