/**
  The phone mask of the web pages: `digitsOnly`, `formatPhone` (a Russian
  number as `+7 (ddd) ddd-dd-dd`, built up as digits are typed) and
  `validatePhone`.
 */
module PhoneMask {

  /** JavaScript's `\d`: the ASCII digits. */
  predicate IsDigit(c: char) {
    '0' <= c <= '9'
  }

  predicate AllDigits(s: string) {
    forall i :: 0 <= i < |s| ==> IsDigit(s[i])
  }

  /** `str.replace(/\D/g, '')`: the digits of `str`, in order (a null or
      empty `str` is the empty string). */
  function DigitsOnly(s: string): (d: string)
    ensures |d| <= |s| && AllDigits(d)
  {
    if s == [] then [] else (if IsDigit(s[0]) then [s[0]] else []) + DigitsOnly(s[1..])
  }

  /** Taking the digits distributes over concatenation. */
  lemma {:induction false} DigitsOnlyConcat(a: string, b: string)
    ensures DigitsOnly(a + b) == DigitsOnly(a) + DigitsOnly(b)
    decreases |a|
  {
    if a == [] {
      assert a + b == b;
    } else {
      assert (a + b)[0] == a[0];
      assert (a + b)[1..] == a[1..] + b;
      DigitsOnlyConcat(a[1..], b);
    }
  }

  /** A string of digits is its own digits, and a string without digits has none. */
  lemma {:induction false} DigitsOnlyOfDigits(s: string)
    ensures AllDigits(s) ==> DigitsOnly(s) == s
    ensures (forall i :: 0 <= i < |s| ==> !IsDigit(s[i])) ==> DigitsOnly(s) == []
  {
    if s != [] {
      DigitsOnlyOfDigits(s[1..]);
      assert s == [s[0]] + s[1..];
    }
  }

  /** `digitsOnly` keeps exactly the digits: it returns its input unchanged
      exactly when the input is all digits. */
  lemma DigitsOnlyFixed(s: string)
    ensures DigitsOnly(s) == s <==> AllDigits(s)
  {
    DigitsOnlyOfDigits(s);
  }

  /** The digits after one leading trunk or country digit (7 or 8) is dropped. */
  function NationalDigits(d: string): (n: string)
    ensures |n| <= |d| && (|n| == |d| || |n| == |d| - 1)
  {
    if |d| > 0 && (d[0] == '8' || d[0] == '7') then d[1..] else d
  }

  /** JavaScript's `s.substring(a, b)`: both ends clamped to `[0, |s|]`,
      swapped if the start is past the end. */
  function JsSubstring(s: string, a: int, b: int): (r: string)
    ensures |r| <= |s|
  {
    var a' := if a < 0 then 0 else if a > |s| then |s| else a;
    var b' := if b < 0 then 0 else if b > |s| then |s| else b;
    if a' <= b' then s[a'..b'] else s[b'..a']
  }

  /** The mask applied to at most ten national digits. */
  function Mask(d: string): string
  {
    if |d| == 0 then ""
    else if |d| <= 3 then "+7 (" + d
    else if |d| <= 6 then "+7 (" + JsSubstring(d, 0, 3) + ") " + JsSubstring(d, 3, |d|)
    else "+7 (" + JsSubstring(d, 0, 3) + ") " + JsSubstring(d, 3, 6) + "-" + JsSubstring(d, 6, 8) + "-" + JsSubstring(d, 8, 10)
  }

  /** The national digits `formatPhone` keeps: at most the first ten. */
  function KeptDigits(value: string): (d: string)
    ensures |d| <= 10 && AllDigits(d)
  {
    var d := NationalDigits(DigitsOnly(value));
    if |d| > 10 then JsSubstring(d, 0, 10) else d
  }

  /** `formatPhone(value)`. */
  function FormatPhone(value: string): string
  {
    Mask(KeptDigits(value))
  }

  /** The kept digits are the first up to ten digits after one leading 7 or 8. */
  lemma KeptDigitsSpec(value: string)
    ensures var n := NationalDigits(DigitsOnly(value));
      KeptDigits(value) == (if |n| > 10 then n[..10] else n)
  {
  }

  /** The literal parts of the mask contribute only the country digit 7. */
  lemma MaskLiterals()
    ensures DigitsOnly("+7 (") == "7" && DigitsOnly(") ") == "" && DigitsOnly("-") == ""
  {
    assert "+7 (" == "+" + ("7" + " (");
    DigitsOnlyConcat("+", "7" + " (");
    DigitsOnlyConcat("7", " (");
    DigitsOnlyOfDigits("+");
    DigitsOnlyOfDigits("7");
    DigitsOnlyOfDigits(" (");
    DigitsOnlyOfDigits(") ");
    DigitsOnlyOfDigits("-");
  }

  lemma AppendDigits(x: string, y: string)
    requires AllDigits(y)
    ensures DigitsOnly(x + y) == DigitsOnly(x) + y
  {
    DigitsOnlyConcat(x, y);
    DigitsOnlyOfDigits(y);
  }

  lemma AppendLiteral(x: string, y: string)
    requires DigitsOnly(y) == []
    ensures DigitsOnly(x + y) == DigitsOnly(x)
  {
    DigitsOnlyConcat(x, y);
    assert DigitsOnly(x) + [] == DigitsOnly(x);
  }

  /** The long form of the mask, with the clamped last groups written out. */
  lemma MaskLong(d: string)
    requires 6 < |d| <= 10
    ensures var m := if |d| < 8 then |d| else 8;
      Mask(d) == "+7 (" + d[..3] + ") " + d[3..6] + "-" + d[6..m] + "-" + d[m..]
  {
  }

  lemma MaskDigitsMid(d: string)
    requires 3 < |d| <= 6 && AllDigits(d)
    ensures DigitsOnly(Mask(d)) == "7" + d
  {
    MaskLiterals();
    var a, b := d[..3], d[3..];
    assert Mask(d) == "+7 (" + a + ") " + b;
    AppendDigits("+7 (", a);
    AppendLiteral("+7 (" + a, ") ");
    AppendDigits("+7 (" + a + ") ", b);
    assert d == a + b;
  }

  lemma MaskDigitsLong(d: string)
    requires 6 < |d| <= 10 && AllDigits(d)
    ensures DigitsOnly(Mask(d)) == "7" + d
  {
    MaskLiterals();
    MaskLong(d);
    var m := if |d| < 8 then |d| else 8;
    var a, b, c, e := d[..3], d[3..6], d[6..m], d[m..];
    var s1 := "+7 (" + a;
    var s2 := s1 + ") ";
    var s3 := s2 + b;
    var s4 := s3 + "-";
    var s5 := s4 + c;
    var s6 := s5 + "-";
    assert Mask(d) == s6 + e;
    AppendDigits("+7 (", a);
    AppendLiteral(s1, ") ");
    AppendDigits(s2, b);
    AppendLiteral(s3, "-");
    AppendDigits(s4, c);
    AppendLiteral(s5, "-");
    AppendDigits(s6, e);
    assert d == a + b + c + e;
  }

  /** The digits of a masked string are a 7 followed by the kept digits. */
  lemma MaskDigits(d: string)
    requires |d| <= 10 && AllDigits(d)
    ensures d != [] ==> DigitsOnly(Mask(d)) == "7" + d
    ensures Mask(d) == "" <==> d == []
  {
    if 0 < |d| <= 3 {
      MaskLiterals();
      DigitsOnlyConcat("+7 (", d);
      DigitsOnlyOfDigits(d);
    } else if 3 < |d| <= 6 {
      MaskDigitsMid(d);
    } else if 6 < |d| {
      MaskDigitsLong(d);
    }
  }

  /** `formatPhone` returns '' exactly when no national digit is left; otherwise
      its output starts with "+7 (" and its digits are a 7 followed by the kept
      digits. */
  lemma FormatPhoneDigits(value: string)
    ensures FormatPhone(value) == "" <==> NationalDigits(DigitsOnly(value)) == ""
    ensures FormatPhone(value) != "" ==>
      StartsWithCountry(FormatPhone(value)) && DigitsOnly(FormatPhone(value)) == "7" + KeptDigits(value)
  {
    var d := KeptDigits(value);
    MaskDigits(d);
    assert d == "" <==> NationalDigits(DigitsOnly(value)) == "";
  }

  predicate StartsWithCountry(s: string) {
    |s| >= 4 && s[..4] == "+7 ("
  }

  /** Ten digits give the full template. */
  lemma FormatPhoneTen(d: string)
    requires |d| == 10 && AllDigits(d) && d[0] != '7' && d[0] != '8'
    ensures FormatPhone(d) == "+7 (" + d[..3] + ") " + d[3..6] + "-" + d[6..8] + "-" + d[8..10]
  {
    DigitsOnlyOfDigits(d);
  }

  /** `formatPhone` is idempotent: re-formatting a stored value keeps it. */
  lemma FormatPhoneIdempotent(value: string)
    ensures FormatPhone(FormatPhone(value)) == FormatPhone(value)
  {
    var d := KeptDigits(value);
    MaskDigits(d);
    if d != [] {
      assert NationalDigits("7" + d) == d;
    }
  }

  /** The outcome of `validatePhone`. */
  datatype PhoneCheck = PhoneCheck(valid: bool, value: string)

  /** `validatePhone` as written: with ten or more national digits it formats
      the first ten again, and `formatPhone` drops a leading 7 or 8 of those
      a second time. */
  function ValidatePhoneAsWritten(value: string): (r: PhoneCheck)
    ensures NationalDigits(DigitsOnly(value)) == [] ==> r == PhoneCheck(true, "")
    ensures 0 < |NationalDigits(DigitsOnly(value))| < 10 ==> r == PhoneCheck(false, "")
    ensures |NationalDigits(DigitsOnly(value))| >= 10 ==> r.valid && r.value == FormatPhone(KeptDigits(value))
  {
    var d := NationalDigits(DigitsOnly(value));
    if |d| == 0 then PhoneCheck(true, "")
    else if |d| < 10 then PhoneCheck(false, "")
    else PhoneCheck(true, FormatPhone(if |d| > 10 then JsSubstring(d, 0, 10) else d))
  }

  /** A ten-digit national number that itself starts with 7 or 8 (such as the
      800 of "8 800 555-35-35") loses that digit in the code as written: the
      accepted value holds only the nine digits after it. */
  lemma ValidatePhoneLosesDigit(value: string)
    requires var n := NationalDigits(DigitsOnly(value)); |n| == 10 && (n[0] == '7' || n[0] == '8')
    ensures var n := NationalDigits(DigitsOnly(value));
      DigitsOnly(ValidatePhoneAsWritten(value).value) == "7" + n[1..] &&
      DigitsOnly(ValidatePhoneAsWritten(value).value) != "7" + n
  {
    var n := NationalDigits(DigitsOnly(value));
    DigitsOnlyOfDigits(n);
    assert KeptDigits(n) == n[1..];
    MaskDigits(n[1..]);
    assert |"7" + n[1..]| != |"7" + n|;
  }

  /** `validatePhone` as evidently intended: the value is the formatted input. */
  function ValidatePhone(value: string): (r: PhoneCheck)
    ensures NationalDigits(DigitsOnly(value)) == [] ==> r == PhoneCheck(true, "")
    ensures 0 < |NationalDigits(DigitsOnly(value))| < 10 ==> r == PhoneCheck(false, "")
    ensures |NationalDigits(DigitsOnly(value))| >= 10 ==> r.valid
  {
    var d := NationalDigits(DigitsOnly(value));
    if |d| == 0 then PhoneCheck(true, "")
    else if |d| < 10 then PhoneCheck(false, "")
    else PhoneCheck(true, FormatPhone(value))
  }

  /** An accepted number comes back complete: its digits are a 7 and the first
      ten national digits, and it is a fixed point of the mask. */
  lemma ValidatePhoneKeepsNumber(value: string)
    requires |NationalDigits(DigitsOnly(value))| >= 10
    ensures var v := ValidatePhone(value).value;
      DigitsOnly(v) == "7" + NationalDigits(DigitsOnly(value))[..10] && FormatPhone(v) == v
  {
    FormatPhoneDigits(value);
    FormatPhoneIdempotent(value);
  }
}
