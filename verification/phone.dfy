/**
 The live formatter of the telephone inputs (js/main.js, the `input` handler
 on every `input[type="tel"]`). On each keystroke the field's value is reduced
 to its ASCII digits, cut to the eight digits of a Norwegian number and laid
 out as `XXX XX XXX`.
 */
module Phone {

  /** Longest digit run the formatter keeps. */
  const MaxDigits: nat := 8

  /** `\d` of a JavaScript regular expression without the `u` flag: `0`-`9` only. */
  predicate IsDigit(c: char) {
    '0' <= c <= '9'
  }

  predicate AllDigits(s: string) {
    forall i :: 0 <= i < |s| ==> IsDigit(s[i])
  }

  /** `value.replace(/\D/g, '')`: the digits of `s`, in order. */
  function Digits(s: string): (d: string)
    ensures |d| <= |s|
    ensures AllDigits(d)
  {
    if |s| == 0 then ""
    else if IsDigit(s[0]) then [s[0]] + Digits(s[1..])
    else Digits(s[1..])
  }

  /** The first `MaxDigits` characters of `v` (`value.substring(0, 8)` when longer). */
  function Truncate(v: string): (t: string)
    ensures |t| == if |v| > MaxDigits then MaxDigits else |v|
    ensures t <= v
  {
    if |v| > MaxDigits then v[..MaxDigits] else v
  }

  /** The value written back into the field. */
  function Format(s: string): (r: string)
    ensures |r| <= MaxDigits + 2
    ensures forall i :: 0 <= i < |r| ==> IsDigit(r[i]) || r[i] == ' '
  {
    var v := Truncate(Digits(s));
    if |v| >= 6 then v[..3] + " " + v[3..5] + " " + v[5..]
    else if |v| >= 3 then v[..3] + " " + v[3..]
    else v
  }

  /** Number of digits the formatter keeps from `s`. */
  function KeptCount(s: string): nat {
    if |Digits(s)| > MaxDigits then MaxDigits else |Digits(s)|
  }

  /** Positions of the spaces in `r` are exactly `spaces`. */
  predicate SpacesExactlyAt(r: string, spaces: set<int>) {
    forall i :: 0 <= i < |r| ==> (r[i] == ' ' <==> i in spaces)
  }

  // ---------------------------------------------------------------------------
  // Facts about Digits
  // ---------------------------------------------------------------------------

  lemma {:induction false} DigitsAppend(a: string, b: string)
    ensures Digits(a + b) == Digits(a) + Digits(b)
  {
    if |a| == 0 {
      assert a + b == b;
    } else {
      assert (a + b)[1..] == a[1..] + b;
      DigitsAppend(a[1..], b);
    }
  }

  lemma {:induction false} DigitsOfDigits(v: string)
    requires AllDigits(v)
    ensures Digits(v) == v
  {
    if |v| > 0 {
      DigitsOfDigits(v[1..]);
    }
  }

  /** A non-digit is removed. */
  lemma DigitsOfNonDigit(c: char)
    requires !IsDigit(c)
    ensures Digits([c]) == ""
  {
    assert [c][1..] == "";
  }

  // ---------------------------------------------------------------------------
  // Properties of the formatter
  // ---------------------------------------------------------------------------

  /** Dropping the spaces from the output gives back exactly the first
      min(8, n) digits of the input, in their input order. */
  lemma FormatKeepsDigits(s: string)
    ensures Digits(Format(s)) == Truncate(Digits(s))
    ensures |Digits(Format(s))| == KeptCount(s)
  {
    var v := Truncate(Digits(s));
    assert AllDigits(v);
    DigitsOfNonDigit(' ');
    if |v| >= 6 {
      DigitsOfDigits(v[..3]);
      DigitsOfDigits(v[3..5]);
      DigitsOfDigits(v[5..]);
      DigitsAppend(v[..3], " ");
      DigitsAppend(v[..3] + " ", v[3..5]);
      DigitsAppend(v[..3] + " " + v[3..5], " ");
      DigitsAppend(v[..3] + " " + v[3..5] + " ", v[5..]);
      assert v[..3] + v[3..5] + v[5..] == v;
    } else if |v| >= 3 {
      DigitsOfDigits(v[..3]);
      DigitsOfDigits(v[3..]);
      DigitsAppend(v[..3], " ");
      DigitsAppend(v[..3] + " ", v[3..]);
      assert v[..3] + v[3..] == v;
    } else {
      DigitsOfDigits(v);
    }
  }

  /** The layout: no space below three digits; one space at index 3 for three
      to five digits (so `"123"` becomes `"123 "`); spaces at indices 3 and 6
      from six digits on. */
  lemma FormatShape(s: string)
    ensures KeptCount(s) < 3 ==> |Format(s)| == KeptCount(s) && SpacesExactlyAt(Format(s), {})
    ensures 3 <= KeptCount(s) < 6 ==> |Format(s)| == KeptCount(s) + 1 && SpacesExactlyAt(Format(s), {3})
    ensures 6 <= KeptCount(s) ==> |Format(s)| == KeptCount(s) + 2 && SpacesExactlyAt(Format(s), {3, 6})
    ensures KeptCount(s) == 3 ==> Format(s) == Truncate(Digits(s)) + " "
  {
  }

  /** Reformatting an already formatted value changes nothing. */
  lemma FormatIdempotent(s: string)
    ensures Format(Format(s)) == Format(s)
  {
    FormatKeepsDigits(s);
    var v := Truncate(Digits(s));
    assert Digits(Format(s)) == v;
    assert Truncate(v) == v;
  }

  /** Three digits leave a trailing space. */
  lemma FormatThreeDigits()
    ensures Format("123") == "123 "
  {
    DigitsOfDigits("123");
  }

  /** With three digits, erasing the trailing space gives back the same
      field value on the next input event: the space cannot be backspaced. */
  lemma TrailingSpaceComesBack(s: string)
    requires KeptCount(s) == 3
    ensures Format(Format(s)[..3]) == Format(s)
  {
    FormatShape(s);
    var v := Truncate(Digits(s));
    assert Format(s)[..3] == v;
    DigitsOfDigits(v);
  }

  /** A non-digit typed anywhere in the field is ignored: the value is
      formatted as if it had not been typed. */
  lemma NonDigitIgnored(a: string, c: char, b: string)
    requires !IsDigit(c)
    ensures Format(a + [c] + b) == Format(a + b)
  {
    DigitsOfNonDigit(c);
    DigitsAppend(a, [c]);
    assert Digits(a + [c]) == Digits(a);
    DigitsAppend(a + [c], b);
    DigitsAppend(a, b);
    assert Digits(a + [c] + b) == Digits(a + b);
  }
}
