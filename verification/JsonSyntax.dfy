/**
  JSON trees and the character classes of the JSON library.

  A tree is generic in what a string is: the text itself, or the position of a
  string inside the parsed buffer.
*/
module JsonSyntax {
  import opened Common

  type Byte = b: int | 0 <= b < 256
  type Text = seq<Byte>

  /** Names are present exactly on the children of objects. */
  datatype Node<S> = Node(name: Option<S>, data: Data<S>)

  datatype Data<S> =
    | Null
    | Bool(b: bool)
    | Int(i: int)
    | Float(d: real)
    | Str(s: S)
    | Cont(isArray: bool, kids: seq<Node<S>>)

  // Error codes
  const JSON_OK: int := 0
  const END_OF_BUFFER: int := -11
  const VALUE_INVALID: int := -12
  const NUMBER_INVALID: int := -13
  const NUMBER_OVERFLOW: int := -14
  const LITERAL_INVALID: int := -15
  const STRING_UNESCAPED: int := -16
  const STRING_INVALID_ESC: int := -17
  const OBJECT_INVALID: int := -18
  const INVALID_UNICODE: int := -31
  const BUFFER_OVERFLOW: int := -32
  const FILE_ERROR: int := -33

  /** Sizes are unsigned 64-bit numbers. */
  const SIZE_MODULUS: nat := 0x1_0000_0000_0000_0000

  // Characters
  const BS: Byte := 8
  const TAB: Byte := 9
  const LF: Byte := 10
  const FF: Byte := 12
  const CR: Byte := 13
  const SPACE: Byte := 32
  const QUOTE: Byte := 34
  const PLUS: Byte := 43
  const COMMA: Byte := 44
  const MINUS: Byte := 45
  const DOT: Byte := 46
  const SLASH: Byte := 47
  const ZERO: Byte := 48
  const NINE: Byte := 57
  const COLON: Byte := 58
  const UPPER_E: Byte := 69
  const OPEN_ARR: Byte := 91
  const BACKSLASH: Byte := 92
  const CLOSE_ARR: Byte := 93
  const LOWER_E: Byte := 101
  const OPEN_OBJ: Byte := 123
  const CLOSE_OBJ: Byte := 125

  const TRUE_TEXT: Text := [116, 114, 117, 101]
  const FALSE_TEXT: Text := [102, 97, 108, 115, 101]
  const NULL_TEXT: Text := [110, 117, 108, 108]

  const REFERENCE_TAG: Byte := 82

  predicate IsSpace(c: Byte) {
    9 <= c <= 13 || c == SPACE
  }

  predicate IsDigit(c: Byte) {
    ZERO <= c <= NINE
  }

  /** Characters of integer literals. */
  predicate IsIntChar(c: Byte) {
    IsDigit(c) || c == PLUS || c == MINUS
  }

  /** Characters that turn a number into a floating-point literal. */
  predicate IsFloatChar(c: Byte) {
    c == DOT || c == UPPER_E || c == LOWER_E
  }

  function EndChar(isArray: bool): Byte {
    if isArray then CLOSE_ARR else CLOSE_OBJ
  }

  function OpenChar(isArray: bool): Byte {
    if isArray then OPEN_ARR else OPEN_OBJ
  }

  /** The codes of the characters of a string. */
  predicate Spells(t: Text, s: string) {
    |t| == |s| && forall k :: 0 <= k < |t| ==> t[k] as char == s[k]
  }

  /** The constants above in ASCII, and the codes of the errors as the library's header numbers them. */
  lemma Spelling()
    ensures Spells([OPEN_OBJ, CLOSE_OBJ, OPEN_ARR, CLOSE_ARR, COMMA, COLON, QUOTE, BACKSLASH, SLASH], "{}[],:\"\\/")
    ensures Spells([PLUS, MINUS, DOT, ZERO, NINE, LOWER_E, UPPER_E, SPACE, LF, CR, TAB], "+-.09eE \n\r\t")
    ensures Spells(TRUE_TEXT, "true") && Spells(FALSE_TEXT, "false") && Spells(NULL_TEXT, "null")
    ensures BS == 0x08 && FF == 0x0C && REFERENCE_TAG as char == 'R'
    ensures END_OF_BUFFER == -11 && VALUE_INVALID == -12 && NUMBER_INVALID == -13 && NUMBER_OVERFLOW == -14
    ensures LITERAL_INVALID == -15 && STRING_UNESCAPED == -16 && STRING_INVALID_ESC == -17 && OBJECT_INVALID == -18
    ensures INVALID_UNICODE == -31 && BUFFER_OVERFLOW == -32 && FILE_ERROR == -33 && JSON_OK == 0
  {
  }

  /** White space is what the C standard's isspace takes, and digits are the decimal ones. */
  lemma Classes(c: Byte)
    ensures IsSpace(c) <==> c as char in " \t\n\r" || c == 0x0B || c == 0x0C
    ensures IsDigit(c) <==> c as char in "0123456789"
    ensures IsIntChar(c) <==> c as char in "0123456789+-"
    ensures IsFloatChar(c) <==> c as char in ".eE"
  {
    assert " \t\n\r" == [' ', '\t', '\n', '\r'] && ".eE" == ['.', 'e', 'E'];
    assert "0123456789" == ['0', '1', '2', '3', '4', '5', '6', '7', '8', '9'];
    assert "0123456789+-" == "0123456789" + ['+', '-'];
  }

  /** A C string: the bytes before the first NUL. */
  function CStr(s: Text): (r: Text)
    ensures r <= s
    ensures 0 !in r
    ensures |r| < |s| ==> s[|r|] == 0
  {
    if s == [] || s[0] == 0 then [] else
    var rest := CStr(s[1..]);
    [s[0]] + rest
  }

  lemma {:induction false} CStrUnique(s: Text, n: nat)
    requires n <= |s| && 0 !in s[..n] && (n < |s| ==> s[n] == 0)
    ensures CStr(s) == s[..n]
  {
    if n > 0 {
      assert s[..n] == [s[0]] + s[1..][..n - 1];
      assert s[0] in s[..n];
      CStrUnique(s[1..], n - 1);
    }
  }
}
