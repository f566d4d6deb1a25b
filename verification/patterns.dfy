/** Models of the regular expressions the addon applies to Webshare's text responses:
    `/<tag>(.*?)<\/tag>/` (first match, lazy, `.` stops at line terminators) and
    `/<file>[\s\S]*?<\/file>/g` (all non-overlapping matches, lazy, any character). */
module Patterns {
  import opened Wrappers
  import opened Text

  /** The characters a JavaScript `.` does not match without the `s` flag. */
  predicate IsLineTerminator(c: char) {
    c == '\n' || c == '\r' || c == '\U{2028}' || c == '\U{2029}'
  }

  /** Position `q` may be consumed by the lazy filler: it does not start `close` (an
      earlier `close` would have ended the match) and, unless `dotAll`, it is not a line
      terminator. */
  predicate FillerAt(s: string, close: string, dotAll: bool, q: nat)
    requires q < |s|
  {
    !IsAt(s, close, q) && (dotAll || !IsLineTerminator(s[q]))
  }

  /** A regex match of `open`, a lazy filler, then `close`: `open` starts at `i` and
      `close` starts at `j`. */
  ghost predicate LazySpan(s: string, open: string, close: string, dotAll: bool, i: nat, j: nat) {
    && IsAt(s, open, i)
    && i + |open| <= j
    && IsAt(s, close, j)
    && forall q :: i + |open| <= q < j ==> FillerAt(s, close, dotAll, q)
  }

  /** The match a regex search starting at `start` reports: the leftmost one. */
  ghost predicate FirstSpanFrom(s: string, open: string, close: string, dotAll: bool, start: nat, i: nat, j: nat) {
    && start <= i
    && LazySpan(s, open, close, dotAll, i, j)
    && forall i', j' :: start <= i' < i ==> !LazySpan(s, open, close, dotAll, i', j')
  }

  /** Without a `close` after the first `open`, nothing matches from `start` on. */
  lemma NoCloseNoMatch(s: string, open: string, close: string, dotAll: bool, start: nat, i: nat)
    requires start <= i && forall i' :: start <= i' < i ==> !IsAt(s, open, i')
    requires forall j :: i + |open| <= j ==> !IsAt(s, close, j)
    ensures forall i', j' :: start <= i' ==> !LazySpan(s, open, close, dotAll, i', j')
  {
  }

  /** An `open`, then the first `close` after it, with nothing but permitted filler in
      between, is a match. */
  lemma FirstCloseMatches(s: string, open: string, close: string, dotAll: bool, i: nat, j: nat)
    requires IsAt(s, open, i) && i + |open| <= j && IsAt(s, close, j)
    requires forall q :: i + |open| <= q < j ==> !IsAt(s, close, q)
    requires dotAll || NoLineTerminator(s[i + |open|..j])
    ensures LazySpan(s, open, close, dotAll, i, j)
  {
    var p := i + |open|;
    forall q | p <= q < j ensures dotAll || !IsLineTerminator(s[q]) {
      if !dotAll { assert s[q] == s[p..j][q - p]; }
    }
  }

  /** A line terminator before the first `close` after an `open` rules out every match
      starting at that `open` when `.` excludes line terminators. */
  lemma TerminatorBlocks(s: string, open: string, close: string, i: nat, j: nat)
    requires i + |open| <= j && IsAt(s, close, j)
    requires forall q :: i + |open| <= q < j ==> !IsAt(s, close, q)
    requires !NoLineTerminator(s[i + |open|..j])
    ensures forall j' :: !LazySpan(s, open, close, false, i, j')
  {
    var p := i + |open|;
    var q0 := FirstLineTerminator(s[p..j]) + p;
    assert s[q0] == s[p..j][q0 - p];
    assert !FillerAt(s, close, false, q0);
  }

  /** When nothing matches at the first `open` from `start`, the leftmost match from
      `start` is the leftmost match from the next position. */
  lemma SkipOpen(s: string, open: string, close: string, dotAll: bool, start: nat, i: nat, r: Option<(nat, nat)>)
    requires start <= i && forall i' :: start <= i' < i ==> !IsAt(s, open, i')
    requires forall j' :: !LazySpan(s, open, close, dotAll, i, j')
    requires r.Some? ==> FirstSpanFrom(s, open, close, dotAll, i + 1, r.value.0, r.value.1)
    requires r.None? ==> forall i', j' :: i + 1 <= i' ==> !LazySpan(s, open, close, dotAll, i', j')
    ensures r.Some? ==> FirstSpanFrom(s, open, close, dotAll, start, r.value.0, r.value.1)
    ensures r.None? ==> forall i', j' :: start <= i' ==> !LazySpan(s, open, close, dotAll, i', j')
  {
  }

  /** Searches for the leftmost lazy match starting at or after `start`; returns where
      `open` and `close` begin. */
  function SearchFrom(s: string, open: string, close: string, dotAll: bool, start: nat): (r: Option<(nat, nat)>)
    requires |open| > 0
    ensures r.Some? ==> FirstSpanFrom(s, open, close, dotAll, start, r.value.0, r.value.1)
    ensures r.None? ==> forall i, j :: start <= i ==> !LazySpan(s, open, close, dotAll, i, j)
    decreases |s| - start
  {
    match FindFrom(s, open, start)
    case None => None
    case Some(i) =>
      var p := i + |open|;
      match FindFrom(s, close, p)
      case None =>
        NoCloseNoMatch(s, open, close, dotAll, start, i);
        None
      case Some(j) =>
        if dotAll || NoLineTerminator(s[p..j]) then
          FirstCloseMatches(s, open, close, dotAll, i, j);
          Some((i, j))
        else
          TerminatorBlocks(s, open, close, i, j);
          var r := SearchFrom(s, open, close, dotAll, i + 1);
          SkipOpen(s, open, close, dotAll, start, i, r);
          r
  }

  predicate NoLineTerminator(t: string) {
    forall q :: 0 <= q < |t| ==> !IsLineTerminator(t[q])
  }

  function FirstLineTerminator(t: string): (q: nat)
    requires !NoLineTerminator(t)
    ensures q < |t| && IsLineTerminator(t[q])
  {
    if IsLineTerminator(t[0]) then 0
    else
      assert !NoLineTerminator(t[1..]) by {
        var q :| 0 <= q < |t| && IsLineTerminator(t[q]);
        assert t[1..][q - 1] == t[q];
      }
      1 + FirstLineTerminator(t[1..])
  }

  // ---------------------------------------------------------------------------
  // `/<tag>(.*?)<\/tag>/` and `String.prototype.match` without the g flag

  function OpenTag(tag: string): string {
    "<" + tag + ">"
  }

  function CloseTag(tag: string): string {
    "</" + tag + ">"
  }

  /** The capture group of the first match of `/<tag>(.*?)<\/tag>/` in `s`, or None when
      `s.match` returns null. The capture holds no line terminator and no `</tag>`. */
  function FirstCapture(s: string, tag: string): (r: Option<string>)
    ensures r.None? <==> forall i, j :: !LazySpan(s, OpenTag(tag), CloseTag(tag), false, i, j)
    ensures r.Some? ==> exists i: nat, j: nat ::
      && FirstSpanFrom(s, OpenTag(tag), CloseTag(tag), false, 0, i, j)
      && r.value == s[i + |OpenTag(tag)|..j]
  {
    var open, close := OpenTag(tag), CloseTag(tag);
    match SearchFrom(s, open, close, false, 0)
    case None => None
    case Some((i, j)) =>
      assert FirstSpanFrom(s, open, close, false, 0, i, j);
      Some(s[i + |open|..j])
  }

  // ---------------------------------------------------------------------------
  // `String.prototype.match` with the g flag

  /** What a search function must do to stand for `SearchFrom`: from every position it
      reports the leftmost match, or None when no match starts there or later. */
  ghost predicate IsLeftmostSearch(next: nat -> Option<(nat, nat)>, s: string, open: string, close: string, dotAll: bool) {
    forall st: nat ::
      && (next(st).Some? ==> FirstSpanFrom(s, open, close, dotAll, st, next(st).value.0, next(st).value.1))
      && (next(st).None? ==> forall i, j :: st <= i ==> !LazySpan(s, open, close, dotAll, i, j))
  }

  lemma SearchFromIsLeftmost(s: string, open: string, close: string, dotAll: bool)
    requires |open| > 0
    ensures IsLeftmostSearch(st => SearchFrom(s, open, close, dotAll, st), s, open, close, dotAll)
  {
  }

  /** The matches a global (`g` flag) search reports, as (open, close) start positions:
      `next(st)` finds the leftmost match from `st`, and each search resumes where the
      previous match's `close` ended. The guards only stop a search that would not advance. */
  function RepeatSearch(next: nat -> Option<(nat, nat)>, closeLen: nat, limit: nat, start: nat): seq<(nat, nat)>
    decreases limit - start
  {
    if start > limit then []
    else match next(start)
      case None => []
      case Some(m) =>
        if start < m.1 + closeLen <= limit then [m] + RepeatSearch(next, closeLen, limit, m.1 + closeLen)
        else []
  }

  /** Every span is a match starting at or after `start`, and the spans are disjoint and
      in order of appearance. */
  ghost predicate OrderedMatches(spans: seq<(nat, nat)>, s: string, open: string, close: string, dotAll: bool, start: nat) {
    && (forall k :: 0 <= k < |spans| ==> LazySpan(s, open, close, dotAll, spans[k].0, spans[k].1) && start <= spans[k].0)
    && (forall k1, k2 :: 0 <= k1 < k2 < |spans| ==> spans[k1].1 + |close| <= spans[k2].0)
  }

  lemma {:induction false} RepeatSearchSound(next: nat -> Option<(nat, nat)>, s: string, open: string, close: string, dotAll: bool, start: nat)
    requires |open| > 0
    requires IsLeftmostSearch(next, s, open, close, dotAll)
    ensures OrderedMatches(RepeatSearch(next, |close|, |s|, start), s, open, close, dotAll, start)
    decreases |s| - start
  {
    if start <= |s| && next(start).Some? {
      var m := next(start).value;
      assert FirstSpanFrom(s, open, close, dotAll, start, m.0, m.1);
      var rest := RepeatSearch(next, |close|, |s|, m.1 + |close|);
      RepeatSearchSound(next, s, open, close, dotAll, m.1 + |close|);
      var spans := [m] + rest;
      assert RepeatSearch(next, |close|, |s|, start) == spans;
      forall k | 0 <= k < |spans|
        ensures LazySpan(s, open, close, dotAll, spans[k].0, spans[k].1) && start <= spans[k].0
      {
        if k > 0 { assert spans[k] == rest[k - 1]; }
      }
      forall k1, k2 | 0 <= k1 < k2 < |spans|
        ensures spans[k1].1 + |close| <= spans[k2].0
      {
        assert spans[k2] == rest[k2 - 1];
        if k1 > 0 { assert spans[k1] == rest[k1 - 1]; }
      }
    }
  }

  /** No match is skipped: every match that starts at or after `start` starts inside the
      `k`-th reported span. */
  lemma {:induction false} RepeatSearchComplete(next: nat -> Option<(nat, nat)>, s: string, open: string, close: string, dotAll: bool, start: nat, i: nat, j: nat)
    returns (k: nat)
    requires |open| > 0
    requires IsLeftmostSearch(next, s, open, close, dotAll)
    requires start <= i && LazySpan(s, open, close, dotAll, i, j)
    ensures var spans := RepeatSearch(next, |close|, |s|, start);
      k < |spans| && spans[k].0 <= i < spans[k].1 + |close|
    decreases |s| - start
  {
    assert next(start).Some?;
    var m := next(start).value;
    assert FirstSpanFrom(s, open, close, dotAll, start, m.0, m.1);
    var rest := RepeatSearch(next, |close|, |s|, m.1 + |close|);
    assert RepeatSearch(next, |close|, |s|, start) == [m] + rest;
    if i < m.1 + |close| {
      k := 0;
    } else {
      var k' := RepeatSearchComplete(next, s, open, close, dotAll, m.1 + |close|, i, j);
      k := k' + 1;
      assert ([m] + rest)[k] == rest[k'];
    }
  }

  /** Every span `/<file>[\s\S]*?<\/file>/g` matches in `body`, in order. */
  function FileSpans(body: string): seq<(nat, nat)> {
    RepeatSearch(st => SearchFrom(body, "<file>", "</file>", true, st), 7, |body|, 0)
  }

  /** Every reported span is a `<file>` match. */
  lemma FileSpanIsMatch(body: string, k: nat)
    requires k < |FileSpans(body)|
    ensures LazySpan(body, "<file>", "</file>", true, FileSpans(body)[k].0, FileSpans(body)[k].1)
  {
    SearchFromIsLeftmost(body, "<file>", "</file>", true);
    RepeatSearchSound(st => SearchFrom(body, "<file>", "</file>", true, st), body, "<file>", "</file>", true, 0);
  }

  /** The text of the `k`-th reported span, from its `<file>` to the end of its `</file>`. */
  lemma FileSpanIsBlock(body: string, k: nat)
    requires k < |FileSpans(body)|
    ensures FileSpans(body)[k].0 <= FileSpans(body)[k].1 + 7 <= |body|
    ensures IsFileBlock(body[FileSpans(body)[k].0..FileSpans(body)[k].1 + 7])
  {
    FileSpanIsMatch(body, k);
    FileMatchText(body, FileSpans(body)[k].0, FileSpans(body)[k].1);
  }

  /** A `<file>` up to the first `</file>` after it. */
  predicate IsFileBlock(block: string) {
    && |block| >= 13 && block[..6] == "<file>" && block[|block| - 7..] == "</file>"
    && forall q :: 6 <= q < |block| - 7 ==> !IsAt(block, "</file>", q)
  }

  /** The text of one `<file>` match runs from its `<file>` to its first `</file>`. */
  lemma FileMatchText(body: string, a: nat, b: nat)
    requires LazySpan(body, "<file>", "</file>", true, a, b)
    ensures IsFileBlock(body[a..b + 7])
  {
    var block := body[a..b + 7];
    assert block[..6] == body[a..a + 6];
    assert block[|block| - 7..] == body[b..b + 7];
    forall q | 6 <= q < |block| - 7 ensures !IsAt(block, "</file>", q) {
      assert FillerAt(body, "</file>", true, a + q);
      IsAtSlice(body, "</file>", a, b + 7, q);
    }
  }

  /** The strings `/<file>[\s\S]*?<\/file>/g` matches in `body`, in order of appearance:
      each is a `<file>` up to the first `</file>` after it. */
  function FileBlocks(body: string): (blocks: seq<string>)
    ensures forall k :: 0 <= k < |blocks| ==> IsFileBlock(blocks[k])
  {
    FileSpansAreBlocks(body);
    SpanTexts(body, FileSpans(body))
  }

  /** The text of each span, closing tag included. */
  function SpanTexts(body: string, spans: seq<(nat, nat)>): (texts: seq<string>)
    requires forall k :: 0 <= k < |spans| ==> spans[k].0 <= spans[k].1 + 7 <= |body|
    ensures |texts| == |spans|
    ensures forall k :: 0 <= k < |spans| ==> texts[k] == body[spans[k].0..spans[k].1 + 7]
  {
    seq(|spans|, k requires 0 <= k < |spans| => body[spans[k].0..spans[k].1 + 7])
  }

  /** Every reported span lies in `body` and its text is a `<file>` block. */
  lemma FileSpansAreBlocks(body: string)
    ensures forall k :: 0 <= k < |FileSpans(body)| ==>
      FileSpans(body)[k].0 <= FileSpans(body)[k].1 + 7 <= |body|
    ensures forall k :: 0 <= k < |FileSpans(body)| ==>
      IsFileBlock(body[FileSpans(body)[k].0..FileSpans(body)[k].1 + 7])
  {
    forall k | 0 <= k < |FileSpans(body)|
      ensures FileSpans(body)[k].0 <= FileSpans(body)[k].1 + 7 <= |body|
      ensures IsFileBlock(body[FileSpans(body)[k].0..FileSpans(body)[k].1 + 7])
    {
      FileSpanIsBlock(body, k);
    }
  }

  /** The blocks are the text of the reported spans, and those are disjoint
      `<file>…</file>` matches of `body` in order of appearance. */
  lemma FileBlocksInOrder(body: string)
    ensures OrderedMatches(FileSpans(body), body, "<file>", "</file>", true, 0)
    ensures |FileBlocks(body)| == |FileSpans(body)|
    ensures forall k :: 0 <= k < |FileSpans(body)| ==>
      FileBlocks(body)[k] == body[FileSpans(body)[k].0..FileSpans(body)[k].1 + 7]
  {
    SearchFromIsLeftmost(body, "<file>", "</file>", true);
    RepeatSearchSound(st => SearchFrom(body, "<file>", "</file>", true, st), body, "<file>", "</file>", true, 0);
  }

  /** No `<file>` match is lost: each one starts inside a reported span. */
  lemma FileBlocksComplete(body: string, i: nat, j: nat) returns (k: nat)
    requires LazySpan(body, "<file>", "</file>", true, i, j)
    ensures k < |FileSpans(body)| && FileSpans(body)[k].0 <= i < FileSpans(body)[k].1 + 7
  {
    SearchFromIsLeftmost(body, "<file>", "</file>", true);
    k := RepeatSearchComplete(st => SearchFrom(body, "<file>", "</file>", true, st), body, "<file>", "</file>", true, 0, i, j);
  }
}
