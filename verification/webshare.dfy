/** The Webshare API as the addon uses it (addon.js): the requests it issues, the search
    response parser and the stream-link lookup. The HTTP client is a parameter. */
module Webshare {
  import opened Wrappers
  import opened Text
  import opened Patterns
  import opened JsNumbers

  /** One GET request to Webshare, with its query parameters. */
  datatype Request =
    | SaltRequest(login: string)                                          // /api/salt/
    | UserDataRequest(wst: string)                                        // /api/user_data/
    | SearchRequest(q: string, wst: string, limit: nat, category: string)  // /api/search/
    | FileLinkRequest(ident: string, wst: string)                         // /api/file_link/

  /** The HTTP client: the response body, or None when the request throws (a transport
      error, a timeout, a non-2xx status). Every caller catches the failure. */
  type Http = Request -> Option<string>

  const SearchLimit: nat := 50
  const SearchCategory: string := "video"

  /** One search result. `title` is None when the block has no `<name>`; `ident` is "" when
      it has no `<ident>` or an empty one (both are falsy to the filter); `size` is 0 when
      it has no `<size>` or `parseInt` gives NaN (both are falsy to the size label). */
  datatype FileRecord = FileRecord(title: Option<string>, ident: string, size: int)

  /** The record one `<file>` block yields: the first `<name>`, `<ident>` and `<size>`
      captures. */
  function ParseFile(block: string): (r: FileRecord)
    // each field is read from the first `<tag>…</tag>` of its tag
    ensures r.title == FirstCapture(block, "name")
    ensures r.ident != "" <==> FirstCapture(block, "ident").Some? && FirstCapture(block, "ident").value != ""
    ensures r.ident != "" ==> FirstCapture(block, "ident") == Some(r.ident)
    // no `<size>` reads as 0; a `<size>` `parseInt` can read gives that number
    ensures FirstCapture(block, "size").None? ==> r.size == 0
    ensures FirstCapture(block, "size").Some? && ParseInt(FirstCapture(block, "size").value).Some? ==>
      r.size == ParseInt(FirstCapture(block, "size").value).value
    // a `<size>` `parseInt` reads as NaN is stored as 0, which the size label treats alike
    ensures FirstCapture(block, "size").Some? && ParseInt(FirstCapture(block, "size").value).None? ==> r.size == 0
  {
    var size := match FirstCapture(block, "size")
      case None => 0
      case Some(text) => ParseInt(text).GetOr(0);
    FileRecord(FirstCapture(block, "name"), FirstCapture(block, "ident").GetOr(""), size)
  }

  /** `.filter(r => r.ident)`: keeps the records with a non-empty ident, in order. */
  function KeepIdentified(records: seq<FileRecord>): (kept: seq<FileRecord>)
    ensures |kept| <= |records|
    ensures forall k :: 0 <= k < |kept| ==> kept[k].ident != "" && kept[k] in records
    ensures forall k :: 0 <= k < |records| && records[k].ident != "" ==> records[k] in kept
  {
    if |records| == 0 then []
    else
      var rest := KeepIdentified(records[1..]);
      if records[0].ident != "" then [records[0]] + rest else rest
  }

  /** Filtering a concatenation filters each part: the kept records stay in their order. */
  lemma {:induction false} KeepIdentifiedAppend(a: seq<FileRecord>, b: seq<FileRecord>)
    ensures KeepIdentified(a + b) == KeepIdentified(a) + KeepIdentified(b)
  {
    if |a| > 0 {
      assert (a + b)[1..] == a[1..] + b;
      KeepIdentifiedAppend(a[1..], b);
    } else {
      assert a + b == b;
    }
  }

  /** The positions of the records with a non-empty ident, in increasing order. */
  function IdentPositions(records: seq<FileRecord>): (ps: seq<nat>)
    ensures forall t :: 0 <= t < |ps| ==> ps[t] < |records|
  {
    if |records| == 0 then []
    else (if records[0].ident != "" then [0] else []) + ShiftPositions(IdentPositions(records[1..]))
  }

  /** Every position moved one place right, to account for a dropped head. */
  function ShiftPositions(ps: seq<nat>): (r: seq<nat>)
    ensures |r| == |ps| && forall t :: 0 <= t < |ps| ==> r[t] == ps[t] + 1
  {
    seq(|ps|, t requires 0 <= t < |ps| => ps[t] + 1)
  }

  /** There are as many positions as kept records. */
  lemma {:induction false} PositionsCount(records: seq<FileRecord>)
    ensures |IdentPositions(records)| == |KeepIdentified(records)|
  {
    if |records| > 0 {
      PositionsCount(records[1..]);
    }
  }

  /** The `t`-th kept record is the record at the `t`-th position. */
  lemma {:induction false} KeptAtPosition(records: seq<FileRecord>, t: nat)
    requires t < |IdentPositions(records)|
    ensures t < |KeepIdentified(records)| && KeepIdentified(records)[t] == records[IdentPositions(records)[t]]
  {
    var tail := records[1..];
    var keep := records[0].ident != "";
    if !(keep && t == 0) {
      var t' := if keep then t - 1 else t;
      var ps := IdentPositions(tail);
      assert IdentPositions(records)[t] == ShiftPositions(ps)[t'];
      KeptAtPosition(tail, t');
      assert KeepIdentified(records)[t] == KeepIdentified(tail)[t'];
      assert tail[ps[t']] == records[ps[t'] + 1];
    }
  }


  /** The positions increase strictly. */
  lemma {:induction false} PositionsIncrease(records: seq<FileRecord>)
    ensures forall t1, t2 :: 0 <= t1 < t2 < |IdentPositions(records)| ==>
      IdentPositions(records)[t1] < IdentPositions(records)[t2]
  {
    if |records| > 0 {
      PositionsIncrease(records[1..]);
    }
  }

  /** Every record with a non-empty ident has its position listed, at index `t`. */
  lemma {:induction false} PositionsComplete(records: seq<FileRecord>, k: nat) returns (t: nat)
    requires k < |records| && records[k].ident != ""
    ensures t < |IdentPositions(records)| && IdentPositions(records)[t] == k
  {
    var tail := records[1..];
    var head: seq<nat> := if records[0].ident != "" then [0] else [];
    var shifted := ShiftPositions(IdentPositions(tail));
    assert IdentPositions(records) == head + shifted;
    if k == 0 {
      t := 0;
    } else {
      assert tail[k - 1] == records[k];
      var t' := PositionsComplete(tail, k - 1);
      assert shifted[t'] == k;
      t := |head| + t';
      assert (head + shifted)[t] == shifted[t'];
    }
  }

  /** Where the kept records come from: `idx` lists, in increasing order, the positions
      of exactly the records with a non-empty ident. */
  lemma KeepIdentifiedPositions(records: seq<FileRecord>) returns (idx: seq<nat>)
    ensures |idx| == |KeepIdentified(records)|
    ensures forall t :: 0 <= t < |idx| ==> idx[t] < |records| && KeepIdentified(records)[t] == records[idx[t]]
    ensures forall t1, t2 :: 0 <= t1 < t2 < |idx| ==> idx[t1] < idx[t2]
    ensures forall k :: 0 <= k < |records| && records[k].ident != "" ==> k in idx
  {
    idx := IdentPositions(records);
    PositionsCount(records);
    forall t | 0 <= t < |idx| ensures KeepIdentified(records)[t] == records[idx[t]] {
      KeptAtPosition(records, t);
    }
    PositionsIncrease(records);
    forall k | 0 <= k < |records| && records[k].ident != "" ensures k in idx {
      var t := PositionsComplete(records, k);
    }
  }

  /** `files.map(...)`: the record of each block, in order. */
  function ParseFiles(blocks: seq<string>): (records: seq<FileRecord>)
    ensures |records| == |blocks|
    ensures forall k :: 0 <= k < |blocks| ==> records[k] == ParseFile(blocks[k])
  {
    if |blocks| == 0 then [] else [ParseFile(blocks[0])] + ParseFiles(blocks[1..])
  }

  /** The records of a search response body: one per `<file>` block, in order, without
      those lacking an ident. */
  function ParseSearch(body: string): (records: seq<FileRecord>)
    ensures |records| <= |FileBlocks(body)|
    ensures forall k :: 0 <= k < |records| ==> records[k].ident != ""
    ensures forall k :: 0 <= k < |FileBlocks(body)| && ParseFile(FileBlocks(body)[k]).ident != "" ==>
      ParseFile(FileBlocks(body)[k]) in records
  {
    var blocks := FileBlocks(body);
    var parsed := ParseFiles(blocks);
    KeepIdentified(parsed)
  }

  /** The search records are the records of the `<file>` blocks with an ident, one per
      block and in the blocks' order: `idx` gives, increasing, the block of each record,
      and every block with an ident is among them. */
  lemma ParseSearchPositions(body: string) returns (idx: seq<nat>)
    ensures |idx| == |ParseSearch(body)|
    ensures forall t :: 0 <= t < |idx| ==>
      idx[t] < |FileBlocks(body)| && ParseSearch(body)[t] == ParseFile(FileBlocks(body)[idx[t]])
    ensures forall t1, t2 :: 0 <= t1 < t2 < |idx| ==> idx[t1] < idx[t2]
    ensures forall k :: 0 <= k < |FileBlocks(body)| && ParseFile(FileBlocks(body)[k]).ident != "" ==> k in idx
  {
    idx := KeepIdentifiedPositions(ParseFiles(FileBlocks(body)));
  }

  /** `searchWebshare(query, wstToken)`: without a token no request is made and the result
      is empty; otherwise one search request, and an empty result if it fails. */
  function SearchWebshare(query: string, wst: string, http: Http): (r: Traced<seq<FileRecord>, Request>)
    ensures wst == "" ==> r.calls == [] && r.value == []
    ensures wst != "" ==> r.calls == [SearchRequest(query, wst, SearchLimit, SearchCategory)]
    ensures forall k :: 0 <= k < |r.value| ==> r.value[k].ident != ""
    ensures |r.value| > 0 ==> http(SearchRequest(query, wst, SearchLimit, SearchCategory)).Some?
    // a failed request degrades to no results; an answer is parsed
    ensures wst != "" && http(SearchRequest(query, wst, SearchLimit, SearchCategory)).None? ==> r.value == []
    ensures wst != "" && http(SearchRequest(query, wst, SearchLimit, SearchCategory)).Some? ==>
      r.value == ParseSearch(http(SearchRequest(query, wst, SearchLimit, SearchCategory)).value)
  {
    if wst == "" then Traced([], [])
    else
      var request := SearchRequest(query, wst, SearchLimit, SearchCategory);
      match http(request)
      case None => Traced([], [request])
      case Some(body) => Traced(ParseSearch(body), [request])
  }

  /** `getWebshareStreamUrl(ident, wstToken)`: without an ident or a token no request is
      made; otherwise one file-link request, whose `<link>` capture is the result. */
  function GetStreamUrl(ident: string, wst: string, http: Http): (r: Traced<Option<string>, Request>)
    ensures ident == "" || wst == "" ==> r.calls == [] && r.value.None?
    ensures ident != "" && wst != "" ==> r.calls == [FileLinkRequest(ident, wst)]
    ensures r.value.Some? ==>
      && http(FileLinkRequest(ident, wst)).Some?
      && r.value == FirstCapture(http(FileLinkRequest(ident, wst)).value, "link")
    // with both present, the result is the body's `<link>` capture, and null on failure
    ensures ident != "" && wst != "" ==>
      r.value == match http(FileLinkRequest(ident, wst))
        case None => None
        case Some(body) => FirstCapture(body, "link")
  {
    if wst == "" || ident == "" then Traced(None, [])
    else
      var request := FileLinkRequest(ident, wst);
      match http(request)
      case None => Traced(None, [request])
      case Some(body) => Traced(FirstCapture(body, "link"), [request])
  }
}
