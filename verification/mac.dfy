/** The device-identifier check `/^[0-9A-F]{2}(?::[0-9A-F]{2}){5}$/i` (server.js). */
module Mac {

  /** `[0-9A-F]` under the `i` flag. */
  predicate IsHexDigit(c: char) {
    '0' <= c <= '9' || 'a' <= c <= 'f' || 'A' <= c <= 'F'
  }

  /** The check as the gate runs it: 17 characters, a `:` at every third position and a
      hexadecimal digit (either case) everywhere else. */
  predicate IsMacAddress(s: string) {
    |s| == 17 && forall i :: 0 <= i < 17 ==> if i % 3 == 2 then s[i] == ':' else IsHexDigit(s[i])
  }

  /** `(?::[0-9A-F]{2}){n}$`: exactly `n` groups of a colon and two hex digits. */
  ghost predicate ColonGroups(t: string, n: nat)
    decreases n
  {
    if n == 0 then t == []
    else |t| >= 3 && t[0] == ':' && IsHexDigit(t[1]) && IsHexDigit(t[2]) && ColonGroups(t[3..], n - 1)
  }

  /** The regular expression read as a grammar: two hex digits, then five colon groups, then
      the end of the input. */
  ghost predicate MacGrammar(s: string) {
    |s| >= 2 && IsHexDigit(s[0]) && IsHexDigit(s[1]) && ColonGroups(s[2..], 5)
  }

  /** `n` colon groups are exactly a text of length `3n` with colons at the multiples of 3. */
  lemma {:induction false} ColonGroupsShape(t: string, n: nat)
    ensures ColonGroups(t, n) <==>
      |t| == 3 * n && forall i :: 0 <= i < |t| ==> if i % 3 == 0 then t[i] == ':' else IsHexDigit(t[i])
  {
    if n > 0 && |t| >= 3 {
      ColonGroupsShape(t[3..], n - 1);
      var u := t[3..];
      assert forall i :: 3 <= i < |t| ==> t[i] == u[i - 3] && (i - 3) % 3 == i % 3;
      if |t| == 3 * n && (forall i :: 0 <= i < |t| ==> if i % 3 == 0 then t[i] == ':' else IsHexDigit(t[i])) {
        forall i | 0 <= i < |u| ensures if i % 3 == 0 then u[i] == ':' else IsHexDigit(u[i]) {
          assert u[i] == t[i + 3] && (i + 3) % 3 == i % 3;
        }
      }
    }
  }

  /** The positional check accepts exactly the strings the regular expression matches. */
  lemma MacCheckIsRegex(s: string)
    ensures IsMacAddress(s) <==> MacGrammar(s)
  {
    if |s| >= 2 {
      var t := s[2..];
      ColonGroupsShape(t, 5);
      assert forall i :: 2 <= i < |s| ==> s[i] == t[i - 2] && (i - 2) % 3 == (i + 1) % 3;
      if IsMacAddress(s) {
        forall i | 0 <= i < |t| ensures if i % 3 == 0 then t[i] == ':' else IsHexDigit(t[i]) {
          assert t[i] == s[i + 2];
        }
      }
    }
  }

  /** Colons are required, and case does not matter. */
  lemma MacExamples()
    ensures !IsMacAddress("AABBCCDDEEFF")
    ensures IsMacAddress("aa:BB:cc:DD:ee:FF")
  {
  }

  /** The upper-case form is accepted as well. */
  lemma MacUpperExample()
    ensures IsMacAddress("AA:BB:CC:DD:EE:FF")
  {
  }
}
