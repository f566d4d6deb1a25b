/** String utilities shared by the parsers: substring search, `split`/`join`, `padStart`
    and decimal digit strings. Strings are sequences of characters. */
module Text {
  import opened Wrappers

  /** True when `pat` occurs in `s` starting at index `i`. */
  predicate IsAt(s: string, pat: string, i: int) {
    0 <= i && i + |pat| <= |s| && s[i..i + |pat|] == pat
  }

  /** An occurrence inside a slice is an occurrence in the whole text. */
  lemma IsAtSlice(s: string, pat: string, a: nat, b: nat, q: nat)
    requires a <= b <= |s|
    ensures IsAt(s[a..b], pat, q) ==> IsAt(s, pat, a + q)
  {
    if IsAt(s[a..b], pat, q) {
      assert q + |pat| <= b - a;
      assert forall t :: 0 <= t < |pat| ==> pat[t] == s[a + q + t] by {
        forall t | 0 <= t < |pat| ensures pat[t] == s[a + q + t] {
          assert pat[t] == s[a..b][q..q + |pat|][t];
        }
      }
      assert s[a..b][q..q + |pat|] == s[a + q..a + q + |pat|];
    }
  }

  /** The least index at or after `from` where `pat` occurs in `s`. */
  function FindFrom(s: string, pat: string, from: nat): (r: Option<nat>)
    ensures r.Some? ==> from <= r.value && IsAt(s, pat, r.value)
    ensures r.Some? ==> forall j :: from <= j < r.value ==> !IsAt(s, pat, j)
    ensures r.None? ==> forall j :: from <= j ==> !IsAt(s, pat, j)
    decreases |s| - from
  {
    if from + |pat| > |s| then None
    else if s[from..from + |pat|] == pat then Some(from)
    else FindFrom(s, pat, from + 1)
  }

  /** `String.prototype.includes`: does `pat` occur anywhere in `s`? */
  function Includes(s: string, pat: string): (b: bool)
    ensures b <==> exists i :: IsAt(s, pat, i)
  {
    var r := FindFrom(s, pat, 0);
    if r.Some? then true
    else
      assert forall i :: !IsAt(s, pat, i) by {
        forall i ensures !IsAt(s, pat, i) {
          if 0 <= i { assert !IsAt(s, pat, i as nat); }
        }
      }
      false
  }

  // ---------------------------------------------------------------------------
  // split / join on a single separator character

  /** Inverse of `Split`: the parts glued back together with `sep` between them. */
  function Join(parts: seq<string>, sep: char): string
    requires |parts| >= 1
  {
    if |parts| == 1 then parts[0] else parts[0] + [sep] + Join(parts[1..], sep)
  }

  /** `s.split(sep)` for a one-character separator: always at least one part, no part
      contains the separator, and joining the parts gives `s` back. */
  function Split(s: string, sep: char): (parts: seq<string>)
    ensures |parts| >= 1
    ensures forall k :: 0 <= k < |parts| ==> sep !in parts[k]
    ensures Join(parts, sep) == s
  {
    if |s| == 0 then [""]
    else
      var rest := Split(s[1..], sep);
      if s[0] == sep then
        assert s == [sep] + s[1..];
        [""] + rest
      else
        var first := [s[0]] + rest[0];
        assert s == first + s[1..][|rest[0]|..] by {
          if |rest| == 1 {
          } else {
            assert Join(rest, sep) == rest[0] + [sep] + Join(rest[1..], sep);
          }
        }
        var parts := [first] + rest[1..];
        assert parts[1..] == rest[1..];
        parts
  }

  /** The first part of a split is the text before the first separator, or all of it. */
  lemma SplitFirstPart(s: string, sep: char)
    ensures var first := Split(s, sep)[0];
      |first| <= |s| && s[..|first|] == first && (|first| == |s| || s[|first|] == sep)
  {
    var parts := Split(s, sep);
    if |parts| > 1 {
      assert s == parts[0] + [sep] + Join(parts[1..], sep);
    }
  }

  /** Splitting a text with no separator yields that text alone. */
  lemma {:induction false} SplitNoSeparator(s: string, sep: char)
    requires sep !in s
    ensures Split(s, sep) == [s]
  {
    if |s| > 0 {
      assert sep !in s[1..];
      SplitNoSeparator(s[1..], sep);
    }
  }

  /** Splitting `a + sep + b` where `a` has no separator peels off `a` as the first part. */
  lemma {:induction false} SplitAtFirstSeparator(a: string, b: string, sep: char)
    requires sep !in a
    ensures Split(a + [sep] + b, sep) == [a] + Split(b, sep)
  {
    var s := a + [sep] + b;
    if |a| == 0 {
      assert s[1..] == b;
    } else {
      assert s[1..] == a[1..] + [sep] + b;
      assert sep !in a[1..];
      SplitAtFirstSeparator(a[1..], b, sep);
      assert [a[0]] + a[1..] == a;
    }
  }

  /** Round trip: splitting a join of separator-free parts recovers the parts. */
  lemma {:induction false} SplitJoin(parts: seq<string>, sep: char)
    requires |parts| >= 1
    requires forall k :: 0 <= k < |parts| ==> sep !in parts[k]
    ensures Split(Join(parts, sep), sep) == parts
  {
    if |parts| == 1 {
      SplitNoSeparator(parts[0], sep);
    } else {
      SplitJoin(parts[1..], sep);
      SplitAtFirstSeparator(parts[0], Join(parts[1..], sep), sep);
      assert [parts[0]] + parts[1..] == parts;
    }
  }

  // ---------------------------------------------------------------------------
  // padStart

  /** `s.padStart(width, fill)` for a one-character filler: left-pads with `fill` up to
      `width` characters and never truncates. */
  function PadStart(s: string, width: nat, fill: char): (r: string)
    ensures |r| == if |s| >= width then |s| else width
    ensures r[|r| - |s|..] == s
    ensures forall i :: 0 <= i < |r| - |s| ==> r[i] == fill
    decreases width - |s|
  {
    if |s| >= width then s else PadStart([fill] + s, width, fill)
  }

  // ---------------------------------------------------------------------------
  // decimal digit strings

  predicate IsDigit(c: char) {
    '0' <= c <= '9'
  }

  predicate AllDigits(ds: string) {
    forall i :: 0 <= i < |ds| ==> IsDigit(ds[i])
  }

  function DigitChar(d: nat): (c: char)
    requires d < 10
    ensures IsDigit(c)
  {
    ('0' as int + d) as char
  }

  /** The value of a string of decimal digits, most significant first. */
  function DigitsValue(ds: string): nat
    requires AllDigits(ds)
  {
    if |ds| == 0 then 0
    else 10 * DigitsValue(ds[..|ds| - 1]) + ((ds[|ds| - 1] as int) - ('0' as int))
  }

  /** The canonical decimal rendering of `n` (JavaScript's `String(n)` for a safe
      non-negative integer): digits only, no leading zero, and it reads back as `n`. */
  function NatToDecimal(n: nat): (r: string)
    ensures |r| >= 1 && AllDigits(r)
    ensures |r| > 1 ==> r[0] != '0'
    ensures DigitsValue(r) == n
  {
    if n < 10 then
      [DigitChar(n)]
    else
      var r := NatToDecimal(n / 10) + [DigitChar(n % 10)];
      assert r[..|r| - 1] == NatToDecimal(n / 10);
      r
  }
}
