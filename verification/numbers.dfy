/** The JavaScript number conversions the core relies on: `parseInt(text, 10)` for file
    sizes, unary `+` for day counts, and `toFixed(0)` for the size label. Integers are
    unbounded here; JavaScript's doubles agree with them below 2^53. */
module JsNumbers {
  import opened Wrappers
  import opened Text

  /** StrWhiteSpaceChar: the white space and line terminators that number parsing skips. */
  predicate IsJsSpace(c: char) {
    || c == '\t' || c == '\n' || c == '\U{000B}' || c == '\U{000C}' || c == '\r' || c == ' '
    || c == '\U{00A0}' || c == '\U{1680}' || '\U{2000}' <= c <= '\U{200A}'
    || c == '\U{2028}' || c == '\U{2029}' || c == '\U{202F}' || c == '\U{205F}'
    || c == '\U{3000}' || c == '\U{FEFF}'
  }

  /** `s` with its leading white space removed. */
  function TrimStart(s: string): (r: string)
    ensures |r| <= |s| && r == s[|s| - |r|..]
    ensures forall i :: 0 <= i < |s| - |r| ==> IsJsSpace(s[i])
    ensures |r| == 0 || !IsJsSpace(r[0])
  {
    if |s| > 0 && IsJsSpace(s[0]) then TrimStart(s[1..]) else s
  }

  /** `s` with its trailing white space removed. */
  function TrimEnd(s: string): (r: string)
    ensures |r| <= |s| && r == s[..|r|]
    ensures forall i :: |r| <= i < |s| ==> IsJsSpace(s[i])
    ensures |r| == 0 || !IsJsSpace(r[|r| - 1])
  {
    if |s| > 0 && IsJsSpace(s[|s| - 1]) then TrimEnd(s[..|s| - 1]) else s
  }

  /** The longest prefix of `s` made of decimal digits. */
  function DigitPrefix(s: string): (r: string)
    ensures AllDigits(r) && |r| <= |s| && r == s[..|r|]
    ensures |r| == |s| || !IsDigit(s[|r|])
  {
    if |s| > 0 && IsDigit(s[0]) then [s[0]] + DigitPrefix(s[1..]) else ""
  }

  /** Removes one leading `+` or `-`; says whether it was `-`. */
  function SplitSign(s: string): (bool, string) {
    if |s| > 0 && (s[0] == '-' || s[0] == '+') then (s[0] == '-', s[1..]) else (false, s)
  }

  function Signed(negative: bool, magnitude: nat): int {
    if negative then -(magnitude as int) else magnitude
  }

  /** `parseInt(s, 10)`: skip leading white space, read an optional sign and the longest
      run of digits after it; None stands for NaN (no digit there). */
  function ParseInt(s: string): (r: Option<int>)
    // NaN exactly when no digit follows the leading white space and an optional sign
    ensures var t := TrimStart(s);
      r.Some? <==>
        || (|t| > 0 && IsDigit(t[0]))
        || (|t| > 1 && (t[0] == '-' || t[0] == '+') && IsDigit(t[1]))
    // a negative result needs a `-` in front of the digits
    ensures r.Some? && r.value < 0 ==> TrimStart(s)[0] == '-'
  {
    var t := TrimStart(s);
    var (negative, rest) := SplitSign(t);
    var digits := DigitPrefix(rest);
    assert |digits| > 0 <==> |rest| > 0 && IsDigit(rest[0]);
    assert |rest| > 0 ==> rest[0] == if |t| > 0 && (t[0] == '-' || t[0] == '+') then t[1] else t[0];
    if |digits| == 0 then None
    else Some(Signed(negative, DigitsValue(digits)))
  }

  /** Unary `+s` restricted to decimal integers: surrounding white space is ignored, an
      empty text is 0, and an optionally signed run of digits is its value. None stands for
      every other text (NaN, or a fractional, exponent, hexadecimal or Infinity form). */
  function ToNumber(s: string): (r: Option<int>)
    // blank text is 0
    ensures (forall i :: 0 <= i < |s| ==> IsJsSpace(s[i])) ==> r == Some(0)
    // a negative number needs a `-` in front of its digits
    ensures r.Some? && r.value < 0 ==> TrimStart(s)[0] == '-'
  {
    var t := TrimEnd(TrimStart(s));
    if |t| == 0 then Some(0)
    else
      var (negative, rest) := SplitSign(t);
      if |rest| > 0 && AllDigits(rest) then
        Some(Signed(negative, DigitsValue(rest)))
      else None
  }

  /** The texts unary `+` reads as a number: after trimming white space, either nothing
      or an optional sign followed by one or more digits. Any other text is None: NaN
      for `+"abc"`, `+"12x"` or `+"-"`, and also the decimal forms this model leaves out. */
  lemma ToNumberAccepts(s: string)
    ensures ToNumber(s).Some? <==>
      var t := TrimEnd(TrimStart(s));
      t == "" || (|SplitSign(t).1| > 0 && AllDigits(SplitSign(t).1))
  {
  }

  /** `+"abc"` and `+"12x"` are NaN. */
  lemma ToNumberExamples()
    ensures ToNumber("abc").None?
    ensures ToNumber("12x").None?
  {
    var letters, trailing := "abc", "12x";
    assert !IsJsSpace(letters[0]) && !IsJsSpace(letters[2]);
    assert !IsJsSpace(trailing[0]) && !IsJsSpace(trailing[2]);
    TrimmedText(letters);
    TrimmedText(trailing);
    assert !IsDigit(letters[0]) && !IsDigit(trailing[2]);
  }

  /** A text that neither starts nor ends with white space is its own trimmed form. */
  lemma TrimmedText(s: string)
    requires |s| > 0 && !IsJsSpace(s[0]) && !IsJsSpace(s[|s| - 1])
    ensures TrimEnd(TrimStart(s)) == s
  {
    TrimStartSkipsSpace("", s);
    assert "" + s == s;
    TrimEndSkipsSpace(s, "");
  }


  /** A decimal rendering, with any white space before it and any non-digit text after it,
      reads back under `parseInt` as the number rendered, with its sign. */
  lemma ParseIntReadsDecimal(space: string, negative: bool, n: nat, tail: string)
    requires forall i :: 0 <= i < |space| ==> IsJsSpace(space[i])
    requires |tail| == 0 || !IsDigit(tail[0])
    ensures ParseInt(space + (if negative then "-" else "") + NatToDecimal(n) + tail)
      == Some(Signed(negative, n))
  {
    var sign := if negative then "-" else "";
    var d := NatToDecimal(n);
    var body := sign + (d + tail);
    assert space + sign + d + tail == space + body;
    assert |body| > 0 && !IsJsSpace(body[0]) by {
      if negative { assert body[0] == '-'; } else { assert body[0] == d[0]; }
    }
    TrimStartSkipsSpace(space, body);
    assert TrimStart(space + body) == body;
    SplitSignOf(negative, d + tail);
    assert SplitSign(TrimStart(space + body)) == (negative, d + tail);
    DigitPrefixOfDigits(d, tail);
    assert DigitPrefix(d + tail) == d;
  }

  /** A decimal rendering surrounded by white space converts under unary `+` to the number
      rendered, with its sign. */
  lemma ToNumberReadsDecimal(before: string, negative: bool, n: nat, after: string)
    requires forall i :: 0 <= i < |before| ==> IsJsSpace(before[i])
    requires forall i :: 0 <= i < |after| ==> IsJsSpace(after[i])
    ensures ToNumber(before + (if negative then "-" else "") + NatToDecimal(n) + after)
      == Some(Signed(negative, n))
  {
    var sign := if negative then "-" else "";
    var d := NatToDecimal(n);
    var core := sign + d;
    assert before + sign + d + after == before + (core + after);
    assert !IsJsSpace(core[0]) && !IsJsSpace(core[|core| - 1]) by {
      if negative { assert core[0] == '-'; } else { assert core[0] == d[0]; }
      assert core[|core| - 1] == d[|d| - 1];
    }
    TrimStartSkipsSpace(before, core + after);
    TrimEndSkipsSpace(core, after);
    SplitSignOf(negative, d);
  }

  lemma SplitSignOf(negative: bool, rest: string)
    requires |rest| > 0 && IsDigit(rest[0])
    ensures SplitSign((if negative then "-" else "") + rest) == (negative, rest)
  {
    if negative {
      assert ("-" + rest)[1..] == rest;
    } else {
      assert "" + rest == rest;
    }
  }

  lemma {:induction false} TrimStartSkipsSpace(space: string, s: string)
    requires forall i :: 0 <= i < |space| ==> IsJsSpace(space[i])
    requires |s| == 0 || !IsJsSpace(s[0])
    ensures TrimStart(space + s) == s
  {
    if |space| > 0 {
      assert (space + s)[1..] == space[1..] + s;
      TrimStartSkipsSpace(space[1..], s);
    }
  }

  lemma {:induction false} TrimEndSkipsSpace(s: string, space: string)
    requires forall i :: 0 <= i < |space| ==> IsJsSpace(space[i])
    requires |s| == 0 || !IsJsSpace(s[|s| - 1])
    ensures TrimEnd(s + space) == s
  {
    if |space| > 0 {
      assert (s + space)[..|s + space| - 1] == s + space[..|space| - 1];
      TrimEndSkipsSpace(s, space[..|space| - 1]);
    } else {
      assert s + space == s;
    }
  }

  lemma {:induction false} DigitPrefixOfDigits(d: string, tail: string)
    requires AllDigits(d)
    requires |tail| == 0 || !IsDigit(tail[0])
    ensures DigitPrefix(d + tail) == d
  {
    if |d| > 0 {
      assert (d + tail)[1..] == d[1..] + tail;
      DigitPrefixOfDigits(d[1..], tail);
    } else {
      assert d + tail == tail;
    }
  }

  /** Bytes in a megabyte as the label computes it (`size / 1024 / 1024`). */
  const Megabyte: nat := 1048576

  /** `(size / 1024 / 1024).toFixed(0)`: the nearest whole number of megabytes, halves
      rounded away from zero, with a `-` sign for negative sizes (even when the rounded
      value is 0, as `toFixed` does). */
  function MegabyteText(size: int): (r: string)
    ensures |r| >= 1 && (r[0] == '-' <==> size < 0)
    ensures var digits := if size < 0 then r[1..] else r;
      var magnitude := if size < 0 then -size else size;
      && AllDigits(digits) && |digits| >= 1 && (|digits| > 1 ==> digits[0] != '0')
      && DigitsValue(digits) * Megabyte <= magnitude + Megabyte / 2
      && magnitude + Megabyte / 2 < DigitsValue(digits) * Megabyte + Megabyte
  {
    var magnitude := if size < 0 then -size else size;
    var digits := NatToDecimal((magnitude + Megabyte / 2) / Megabyte);
    if size < 0 then "-" + digits else digits
  }
}
