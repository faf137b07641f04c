/** The per-type format checks handleUpdateCell applies to a trimmed, non-empty
    cell value (src/App.jsx:166-176). */
module CellValidation {
  import opened Strings
  import opened Schema

  predicate IsDigit(c: char) {
    '0' <= c <= '9'
  }

  /** One or more decimal digits. */
  predicate IsDigits(s: string) {
    |s| > 0 && forall i :: 0 <= i < |s| ==> IsDigit(s[i])
  }

  /** The INTEGER check, the regular expression ^-?\d+$. */
  predicate IsIntegerText(s: string) {
    IsDigits(s) || (|s| > 0 && s[0] == '-' && IsDigits(s[1..]))
  }

  predicate IsSignedInteger(s: string) {
    IsDigits(s) || (|s| > 0 && (s[0] == '+' || s[0] == '-') && IsDigits(s[1..]))
  }

  /** `digits`, `digits.`, `digits.digits` or `.digits`. */
  predicate IsMantissa(m: string) {
    var p := FirstIndexOf(m, ".");
    if p == |m| then IsDigits(m)
    else
      (IsDigits(m[..p]) && (p + 1 == |m| || IsDigits(m[p + 1..])))
      || (p == 0 && IsDigits(m[1..]))
  }

  /** StrUnsignedDecimalLiteral of ECMA-262 section 7.1.4.1.1: Infinity, or a
      mantissa with an optional exponent part. */
  predicate IsUnsignedDecimal(s: string) {
    s == "Infinity" ||
    var k := FirstIndexOf(s, "eE");
    IsMantissa(s[..k]) && (k == |s| || IsSignedInteger(s[k + 1..]))
  }

  /** StrDecimalLiteral: an optionally signed StrUnsignedDecimalLiteral. */
  predicate IsDecimalLiteral(s: string) {
    IsUnsignedDecimal(s) || (|s| > 0 && (s[0] == '+' || s[0] == '-') && IsUnsignedDecimal(s[1..]))
  }

  predicate AllIn(s: string, chars: string) {
    forall i :: 0 <= i < |s| ==> s[i] in chars
  }

  /** NonDecimalIntegerLiteral: 0b / 0o / 0x followed by digits of that base. */
  predicate IsNonDecimalInteger(s: string) {
    |s| >= 3 && s[0] == '0' &&
    ((s[1] in "bB" && AllIn(s[2..], "01"))
     || (s[1] in "oO" && AllIn(s[2..], "01234567"))
     || (s[1] in "xX" && AllIn(s[2..], "0123456789abcdefABCDEF")))
  }

  /** The REAL check: Number(s) is not NaN for a trimmed, non-empty `s`,
      that is, `s` is a StrNumericLiteral. */
  predicate IsNumberText(s: string) {
    IsDecimalLiteral(s) || IsNonDecimalInteger(s)
  }

  /** The BOOLEAN check on the lower-cased value. */
  predicate IsBooleanWord(s: string) {
    s in ["true", "false", "1", "0", "yes", "no"]
  }

  /** Whether handleUpdateCell lets `raw` into a column of type `ty`:
      a blank value always passes, otherwise the trimmed value must pass the
      check of the column's type. */
  predicate Accepts(ty: SqlType, raw: string) {
    var t := Trim(raw);
    t == "" ||
    match ty
    case Integer => IsIntegerText(t)
    case Real => IsNumberText(t)
    case Boolean => IsBooleanWord(LowerAscii(t))
    case Text => true
  }

  /** Every value the INTEGER check admits is also admitted by the REAL check. */
  lemma IntegerTextIsNumberText(s: string)
    requires IsIntegerText(s)
    ensures IsNumberText(s)
  {
    var u := if IsDigits(s) then s else s[1..];
    assert IsDigits(u);
    var k := FirstIndexOf(u, "eE");
    assert u[..k] == u;
    assert IsUnsignedDecimal(u);
  }

  /** Text with letters is refused by the INTEGER, REAL and BOOLEAN checks. */
  lemma LettersRejected()
    ensures !Accepts(Integer, "abc") && !Accepts(Real, "abc") && !Accepts(Boolean, "abc")
  {
    TrimUntouched("abc");
    assert FirstIndexOf("abc", "eE") == 3;
    assert FirstIndexOf("abc", ".") == 3;
    assert FirstIndexOf("bc", "eE") == 2;
    assert FirstIndexOf("bc", ".") == 2;
  }

  /** A signed whole number passes the INTEGER check. */
  lemma IntegerAccepted()
    ensures Accepts(Integer, "-42")
  {
    TrimUntouched("-42");
    assert "-42"[1..] == "42";
  }

  /** A decimal with an exponent passes the REAL check. */
  lemma RealAccepted()
    ensures Accepts(Real, "1.5e3")
  {
    TrimUntouched("1.5e3");
    assert FirstIndexOf("1.5e3", "eE") == 3;
    assert "1.5e3"[..3] == "1.5";
    assert FirstIndexOf("1.5", ".") == 1;
    assert "1.5"[..1] == "1" && "1.5"[2..] == "5";
    assert "1.5e3"[4..] == "3";
  }

  /** The BOOLEAN check ignores case. */
  lemma BooleanAccepted()
    ensures Accepts(Boolean, "YES")
  {
    TrimUntouched("YES");
    assert LowerChar('Y') == 'y' && LowerChar('E') == 'e' && LowerChar('S') == 's';
    var l := LowerAscii("YES");
    assert |l| == 3 && l[0] == 'y' && l[1] == 'e' && l[2] == 's';
    assert l == "yes";
  }

  /** A blank value, of any length, bypasses the type check. */
  lemma BlankAccepted(ty: SqlType, raw: string)
    requires IsBlank(raw)
    ensures Accepts(ty, raw)
  {
    TrimEmptyIffBlank(raw);
  }
}
