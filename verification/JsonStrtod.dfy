/**
  The floating-point conversion of the C library, as section 7.22.1.3 of C11
  describes it: the longest beginning that has one of the expected forms is
  converted. That is all the other modules ask of it.
*/
module JsonStrtod {
  import opened Common
  import opened JsonSyntax
  import opened JsonParser
  import opened JsonGrammar
  import opened JsonRfc

  const LOWER_X: Byte := 120
  const UPPER_X: Byte := 88

  /** After the sign, 0x begins a hexadecimal number, and a letter I or N an infinity or a NaN. */
  predicate OtherHead(t: Text) {
    var s := SignLength(t);
    || (s + 1 < |t| && t[s] == ZERO && (t[s + 1] == LOWER_X || t[s + 1] == UPPER_X))
    || (s < |t| && t[s] in {73, 78, 105, 110})
  }

  /** The expected forms; which hexadecimal numbers, infinities and NaNs there are is left open. */
  ghost predicate Subject(t: Text, others: Text -> bool) {
    CDecimal(t) || (OtherHead(t) && others(t))
  }

  /** `n` is the length of the longest beginning of an expected form, or zero. */
  ghost predicate LongestSubject(t: Text, n: nat, others: Text -> bool) {
    && n <= |t| && (n > 0 ==> Subject(t[..n], others))
    && forall m :: n < m <= |t| ==> !Subject(t[..m], others)
  }

  /** On texts without leading white space it converts just the longest such beginning. */
  ghost predicate CLibrary(strtod: Strtod, others: Text -> bool) {
    forall t :: t == [] || !IsSpace(t[0]) ==>
      var n := Scan(strtod, t).consumed;
      LongestSubject(t, n, others) && Scan(strtod, t) == Scan(strtod, t[..n])
  }

  lemma DecimalChars(t: Text)
    requires CDecimal(t)
    ensures t != [] && forall k :: 0 <= k < |t| ==> IsNumberChar(t[k])
  {
    var sign, n, frac, exp :| CDecimalOf(t, sign, n, frac, exp);
    forall k | 0 <= k < |exp|
      ensures IsNumberChar(exp[k])
    {
      assert k >= 2 ==> exp[k] == exp[2..][k - 2];
      assert k >= 1 ==> exp[k] == exp[1..][k - 1];
    }
    forall k | 0 <= k < |frac|
      ensures IsNumberChar(frac[k])
    {
      assert k >= 1 ==> frac[k] == frac[1..][k - 1];
    }
  }

  /** A number with a point or an exponent neither is one of the other forms nor begins one. */
  lemma NoOtherHead(t: Text, rest: Text)
    requires NumberRun(t) && HasFloatChar(t) && Stops(rest)
    ensures !OtherHead(t + rest)
  {
    var u := t + rest;
    var f :| 0 <= f < |t| && IsFloatChar(t[f]);
    assert u[0] == t[0] && u[f] == t[f];
    assert |rest| > 0 ==> u[|t|] == rest[0];
    assert forall k :: 0 <= k < |t| ==> u[k] == t[k];
    if |t| == 2 {
      assert f == 0 || f == 1;
    }
  }

  /** No expected form goes on behind such a number. */
  lemma NothingBehind(t: Text, rest: Text, m: nat, others: Text -> bool)
    requires NumberRun(t) && HasFloatChar(t) && Stops(rest) && |t| < m <= |t + rest|
    ensures !Subject((t + rest)[..m], others)
  {
    hide CDecimal;
    var u := (t + rest)[..m];
    assert u == t + rest[..m - |t|];
    NoOtherHead(t, rest[..m - |t|]);
    assert u[|t|] == rest[0];
    if CDecimal(u) {
      DecimalChars(u);
    }
  }

  lemma LongestUnique(t: Text, n: nat, m: nat, others: Text -> bool)
    requires LongestSubject(t, n, others) && LongestSubject(t, m, others)
    ensures n == m
  {
    hide Subject;
  }

  /** The conversion of the C library does not look behind such a number. */
  lemma LibraryIsLocal(strtod: Strtod, others: Text -> bool)
    requires CLibrary(strtod, others)
    ensures Local(strtod)
  {
    hide Subject, CLibrary, NumberRun, HasFloatChar, IsNumberChar, LongestSubject;
    forall t | NumberRun(t) && HasFloatChar(t)
      ensures LocalAt(strtod, t)
    {
      forall rest | rest == [] || !IsNumberChar(rest[0])
        ensures Scan(strtod, t + rest) == Scan(strtod, t)
      {
        LocalHere(strtod, t, rest, others);
      }
    }
  }

  lemma LocalHere(strtod: Strtod, t: Text, rest: Text, others: Text -> bool)
    requires CLibrary(strtod, others) && NumberRun(t) && HasFloatChar(t) && Stops(rest)
    ensures Scan(strtod, t + rest) == Scan(strtod, t)
  {
    hide Subject, CLibrary, HasFloatChar, LongestSubject;
    var u := t + rest;
    assert u[0] == t[0];
    LibraryAt(strtod, t, others);
    LibraryAt(strtod, u, others);
    var n := Scan(strtod, u).consumed;
    ShortSubject(t, rest, n, others);
    LongestUnique(t, n, Scan(strtod, t).consumed, others);
  }

  lemma LibraryAt(strtod: Strtod, t: Text, others: Text -> bool)
    requires CLibrary(strtod, others) && t != [] && !IsSpace(t[0])
    ensures var n := Scan(strtod, t).consumed;
            LongestSubject(t, n, others) && n <= |t| && Scan(strtod, t) == Scan(strtod, t[..n])
  {
    hide Subject;
  }

  lemma ShortSubject(t: Text, rest: Text, n: nat, others: Text -> bool)
    requires NumberRun(t) && HasFloatChar(t) && Stops(rest) && LongestSubject(t + rest, n, others)
    ensures n <= |t| && LongestSubject(t, n, others) && (t + rest)[..n] == t[..n]
  {
    hide Subject, HasFloatChar, NumberRun, Stops;
    if n > |t| {
      NothingBehind(t, rest, n, others);
    } else {
      assert forall m :: 0 <= m <= |t| ==> (t + rest)[..m] == t[..m];
    }
  }

  /** It takes such a number as a whole exactly if it is decimal. */
  lemma LibraryIsStandard(strtod: Strtod, others: Text -> bool)
    requires CLibrary(strtod, others)
    ensures Standard(strtod)
  {
    hide CLibrary, CDecimal, HasFloatChar;
    forall t | NumberRun(t) && HasFloatChar(t)
      ensures Scan(strtod, t).consumed == |t| <==> CDecimal(t)
    {
      assert t + [] == t && t[..|t|] == t;
      LibraryAt(strtod, t, others);
      NoOtherHead(t, []);
    }
  }

  // ---------------------------------------------------------------------
  // There is such a conversion
  // ---------------------------------------------------------------------

  ghost function Longest(t: Text, k: nat, others: Text -> bool): (n: nat)
    requires k <= |t|
    ensures n <= k && (n > 0 ==> Subject(t[..n], others)) && forall m :: n < m <= k ==> !Subject(t[..m], others)
  {
    if k == 0 || Subject(t[..k], others) then k else Longest(t, k - 1, others)
  }

  lemma LongestOfPrefix(t: Text, others: Text -> bool)
    ensures LongestSubject(t, Longest(t, |t|, others), others)
    ensures var n := Longest(t, |t|, others); Longest(t[..n], n, others) == n
  {
    hide Subject;
    var n := Longest(t, |t|, others);
    assert t[..n][..n] == t[..n];
  }

  /** Whatever the other forms are, some conversion is as described. */
  lemma LibraryExists(others: Text -> bool)
    ensures exists strtod: Strtod :: CLibrary(strtod, others)
  {
    hide Subject, Longest;
    ghost var strtod: Strtod := t => FloatScan(0.0, Longest(t, |t|, others), false);
    forall t: Text
      ensures LongestSubject(t, Scan(strtod, t).consumed, others)
              && Scan(strtod, t) == Scan(strtod, t[..Scan(strtod, t).consumed])
    {
      LongestOfPrefix(t, others);
    }
    assert CLibrary(strtod, others);
  }
}
