/** The few pieces of java.lang string behaviour the parser relies on:
    startsWith, trim, toLowerCase on names, Integer.toString, Integer.parseInt
    and the grammar that Float.valueOf accepts. */
module JavaStrings {
  import opened Errors

  predicate StartsWith(s: string, prefix: string)
  {
    |prefix| <= |s| && s[..|prefix|] == prefix
  }

  // ---------------------------------------------------------------- trim

  /** String.trim removes every leading and trailing character up to U+0020. */
  predicate IsTrimmed(c: char)
  {
    c <= ' '
  }

  function TrimStart(s: string): (r: string)
    ensures |r| <= |s| && r == s[|s| - |r|..]
    ensures forall k :: 0 <= k < |s| - |r| ==> IsTrimmed(s[k])
    ensures r == [] || !IsTrimmed(r[0])
  {
    if s != [] && IsTrimmed(s[0]) then TrimStart(s[1..]) else s
  }

  function TrimEnd(s: string): (r: string)
    ensures |r| <= |s| && r == s[..|r|]
    ensures forall k :: |r| <= k < |s| ==> IsTrimmed(s[k])
    ensures r == [] || !IsTrimmed(r[|r| - 1])
  {
    if s != [] && IsTrimmed(s[|s| - 1]) then TrimEnd(s[..|s| - 1]) else s
  }

  function Trim(s: string): string
  {
    TrimEnd(TrimStart(s))
  }

  /** A string that neither starts nor ends with a trimmed character. */
  predicate Clean(s: string)
  {
    s != [] && !IsTrimmed(s[0]) && !IsTrimmed(s[|s| - 1])
  }

  /** Trimming a clean string followed by blanks gives back the clean string. */
  lemma TrimDropsTrailingBlanks(s: string, tail: string)
    requires Clean(s)
    requires forall k :: 0 <= k < |tail| ==> IsTrimmed(tail[k])
    ensures Trim(s + tail) == s
  {
    var t := s + tail;
    assert t[0] == s[0];
    assert TrimStart(t) == t;
    var r := TrimEnd(t);
    assert !IsTrimmed(t[|s| - 1]);
    assert forall k :: |s| <= k < |t| ==> IsTrimmed(t[k]) by {
      forall k | |s| <= k < |t| ensures IsTrimmed(t[k]) {
        assert t[k] == tail[k - |s|];
      }
    }
    assert |r| == |s|;
    assert r == t[..|s|] == s;
  }

  /** Trimming a clean string followed by one blank drops just that blank. */
  lemma TrimDropsLastBlank(c: string, b: char)
    requires Clean(c) && IsTrimmed(b)
    ensures Trim(c + [b]) == c
  {
    var s := c + [b];
    assert s[0] == c[0];
    assert TrimStart(s) == s;
    assert s[..|s| - 1] == c;
    assert TrimEnd(c) == c;
    assert TrimEnd(s) == TrimEnd(c);
  }

  /** Trimming the end of x + y stays inside y when y holds a visible
      character. */
  lemma {:induction false} TrimEndAppend(x: string, y: string)
    requires TrimEnd(y) != []
    ensures TrimEnd(x + y) == x + TrimEnd(y)
    decreases |y|
  {
    var s := x + y;
    if IsTrimmed(y[|y| - 1]) {
      assert s[..|s| - 1] == x + y[..|y| - 1];
      TrimEndAppend(x, y[..|y| - 1]);
    }
  }

  // ------------------------------------------------------- decimal digits

  /** The ASCII decimal digits. */
  predicate IsDigit(c: char)
  {
    '0' <= c <= '9'
  }

  predicate AllDigits(s: string)
  {
    forall i :: 0 <= i < |s| ==> IsDigit(s[i])
  }

  function DigitValue(c: char): nat
    requires IsDigit(c)
  {
    (c as int) - ('0' as int)
  }

  function DigitChar(d: nat): (c: char)
    requires d < 10
    ensures IsDigit(c) && DigitValue(c) == d
  {
    (('0' as int) + d) as char
  }

  /** The value of a numeral, read most significant digit first. */
  function DigitsValue(s: string): nat
    requires AllDigits(s)
  {
    if s == [] then 0 else DigitsValue(s[..|s| - 1]) * 10 + DigitValue(s[|s| - 1])
  }

  /** Integer.toString of a non-negative int. */
  function NatToString(n: nat): (r: string)
    ensures r != [] && AllDigits(r)
    ensures DigitsValue(r) == n
    ensures |r| > 1 ==> r[0] != '0'
  {
    if n < 10 then [DigitChar(n)]
    else
      var init := NatToString(n / 10);
      var r := init + [DigitChar(n % 10)];
      assert r[..|r| - 1] == init;
      r
  }

  // ------------------------------------------------------- Integer.parseInt

  const IntMin: int := -0x8000_0000
  const IntMax: int := 0x7fff_ffff

  /** Integer.parseInt (and Integer.valueOf): an optional sign, at least one
      ASCII decimal digit and nothing else, with a value inside the 32-bit
      range; None stands for NumberFormatException. Java also reads the
      decimal digits of other scripts, such as '١' (U+0661); those are
      refused here. */
  function ParseInt(s: string): (r: Option<int>)
    ensures r.Some? ==> IntMin <= r.value <= IntMax
    ensures r.Some? ==> s != [] && (IsDigit(s[0]) || s[0] == '-' || s[0] == '+')
  {
    var signed := s != [] && (s[0] == '-' || s[0] == '+');
    var digits := if signed then s[1..] else s;
    if digits == [] || !AllDigits(digits) then None
    else
      var v: int := if signed && s[0] == '-' then -(DigitsValue(digits) as int) else DigitsValue(digits);
      if IntMin <= v <= IntMax then Some(v) else None
  }

  /** Integer.parseInt reads back what Integer.toString writes. */
  lemma ParseIntOfNatToString(n: nat)
    requires n <= IntMax
    ensures ParseInt(NatToString(n)) == Some(n)
  {
    var s := NatToString(n);
    assert IsDigit(s[0]);
  }

  /** ParseInt rejects anything with a character that is not an ASCII digit
      after the optional sign. */
  lemma ParseIntRejectsNonDigit(s: string, i: nat)
    requires 0 < i < |s| || (i == 0 && |s| > 0 && s[0] != '-' && s[0] != '+')
    requires !IsDigit(s[i])
    ensures ParseInt(s) == None
  {
    if s[0] == '-' || s[0] == '+' {
      assert s[1..][i - 1] == s[i];
    }
  }

  // ---------------------------------------------------------- Float.valueOf

  predicate IsHexDigit(c: char)
  {
    IsDigit(c) || 'a' <= c <= 'f' || 'A' <= c <= 'F'
  }

  /** Where the scan of a floating-point literal stands. */
  datatype FloatState =
    | Unread        // nothing read yet
    | IntDigits     // decimal digits before any point
    | DotFirst      // a point with no digit before it
    | FracDigits    // at least one digit, and the point
    | ExpStart      // the exponent marker
    | ExpSign       // the exponent's sign
    | ExpDigits     // exponent digits
    | Suffix        // the type suffix f, F, d or D
    | HexStart      // just after 0x
    | HexInt        // hex digits before any point
    | HexDotFirst   // a point with no hex digit before it
    | HexFrac       // at least one hex digit, and the point
    | Reject

  /** One character of the scan. Decimal literals may end after digits, an
      exponent or a suffix; hexadecimal ones must have a binary exponent. */
  function FloatNext(st: FloatState, c: char): FloatState
  {
    match st
    case Unread => if IsDigit(c) then IntDigits else if c == '.' then DotFirst else Reject
    case IntDigits =>
      if IsDigit(c) then IntDigits else if c == '.' then FracDigits
      else if c == 'e' || c == 'E' then ExpStart else if c in {'f', 'F', 'd', 'D'} then Suffix else Reject
    case DotFirst => if IsDigit(c) then FracDigits else Reject
    case FracDigits =>
      if IsDigit(c) then FracDigits else if c == 'e' || c == 'E' then ExpStart
      else if c in {'f', 'F', 'd', 'D'} then Suffix else Reject
    case ExpStart => if c == '+' || c == '-' then ExpSign else if IsDigit(c) then ExpDigits else Reject
    case ExpSign => if IsDigit(c) then ExpDigits else Reject
    case ExpDigits => if IsDigit(c) then ExpDigits else if c in {'f', 'F', 'd', 'D'} then Suffix else Reject
    case Suffix => Reject
    case HexStart => if IsHexDigit(c) then HexInt else if c == '.' then HexDotFirst else Reject
    case HexInt =>
      if IsHexDigit(c) then HexInt else if c == '.' then HexFrac else if c == 'p' || c == 'P' then ExpStart else Reject
    case HexDotFirst => if IsHexDigit(c) then HexFrac else Reject
    case HexFrac => if IsHexDigit(c) then HexFrac else if c == 'p' || c == 'P' then ExpStart else Reject
    case Reject => Reject
  }

  /** The states in which a literal may end. */
  predicate FloatFinal(st: FloatState)
  {
    st == IntDigits || st == FracDigits || st == ExpDigits || st == Suffix
  }

  /** Scans u from index i in state st; true when the scan ends in a final
      state. */
  function FloatScan(u: string, i: nat, st: FloatState): bool
    requires i <= |u|
    decreases |u| - i
  {
    if i == |u| then FloatFinal(st) else FloatScan(u, i + 1, FloatNext(st, u[i]))
  }

  /** The strings Float.valueOf accepts without NumberFormatException: after
      trim, an optional sign and then NaN, Infinity, a decimal literal, or 0x
      (0X) and a hexadecimal literal with a binary exponent. Only recognition is
      modelled, not the value. */
  predicate IsJavaFloat(s: string)
  {
    var t := Trim(s);
    var u := if t != [] && (t[0] == '+' || t[0] == '-') then t[1..] else t;
    || u == "NaN"
    || u == "Infinity"
    || FloatScan(u, 0, Unread)
    || (|u| >= 2 && u[0] == '0' && (u[1] == 'x' || u[1] == 'X') && FloatScan(u, 2, HexStart))
  }

  lemma {:induction false} DigitsScan(u: string, i: nat)
    requires i < |u| && forall k :: i <= k < |u| ==> IsDigit(u[k])
    ensures FloatScan(u, i, IntDigits)
    decreases |u| - i
  {
    if i + 1 < |u| {
      DigitsScan(u, i + 1);
    }
  }

  /** Every decimal numeral is a float literal: a value an int argument
      accepts without a sign, a float argument accepts too. */
  lemma NumeralIsJavaFloat(s: string)
    requires s != [] && AllDigits(s)
    ensures IsJavaFloat(s)
  {
    assert Clean(s);
    TrimDropsTrailingBlanks(s, "");
    assert s + "" == s;
    if |s| > 1 {
      DigitsScan(s, 1);
    }
  }

  // ------------------------------------------------------------ lower case

  /** toLowerCase, on the ASCII letters only. */
  function ToLowerChar(c: char): char
  {
    if 'A' <= c <= 'Z' then ((c as int) + 32) as char else c
  }

  function ToLower(s: string): string
  {
    seq(|s|, i requires 0 <= i < |s| => ToLowerChar(s[i]))
  }
}
