/** The string side of the arXiv query layer: the search expression of a
    list of `(field, keyword)` pairs, the URL of one page of results, and the
    arXiv identifier and version read off an entry's `<id>`. The URL
    encoding `urllib.parse.quote_plus` is a parameter. */
module ArxivQuery {
  import opened Wrappers
  import opened Text

  /** `prefix_map` of `build_arxiv_search_expression`. */
  const PrefixMap: map<string, string> :=
    map["author" := "au:", "title" := "ti:", "abstract" := "abs:", "all" := "all:"]

  /** `prefix_map.get(field, "all:")` */
  function FieldPrefix(field: string): string
  {
    if field in PrefixMap then PrefixMap[field] else "all:"
  }

  /** `build_arxiv_search_expression(field, keyword)` */
  function SearchExpression(field: string, keyword: string): string
  {
    FieldPrefix(field) + keyword
  }

  /** The search expression splits back at its first `:` into the field's
      prefix and the keyword, whatever the keyword holds; the prefix is one
      of the four of the table, `all:` for an unknown field. */
  lemma SearchExpressionSplits(field: string, keyword: string)
    ensures var e := SearchExpression(field, keyword);
      && ':' in e
      && e[..IndexOf(e, ':') + 1] == FieldPrefix(field)
      && e[IndexOf(e, ':') + 1..] == keyword
    ensures FieldPrefix(field) in {"au:", "ti:", "abs:", "all:"}
    ensures field !in {"author", "title", "abstract", "all"} ==> FieldPrefix(field) == "all:"
  {
    var p := FieldPrefix(field);
    var name := p[..|p| - 1];
    assert ':' !in name;
    assert p == name + [':'];
    IndexOfAfter(name, ':', keyword);
    assert SearchExpression(field, keyword) == name + [':'] + keyword;
  }

  /** The expressions of the parts, in input order. */
  function Expressions(parts: seq<(string, string)>): (r: seq<string>)
    ensures |r| == |parts|
    ensures forall k :: 0 <= k < |parts| ==> r[k] == SearchExpression(parts[k].0, parts[k].1)
  {
    if parts == [] then []
    else Expressions(parts[..|parts| - 1]) + [SearchExpression(parts[|parts| - 1].0, parts[|parts| - 1].1)]
  }

  /** The terms that are joined: the expressions, or the single `all:*`
      when there are none. */
  function Terms(parts: seq<(string, string)>): seq<string>
  {
    if parts == [] then ["all:*"] else Expressions(parts)
  }

  const AndSeparator: string := "+AND+"

  /** `combined_expr` of `getArXivQuery` and `_build_paged_url`. */
  function CombinedExpression(parts: seq<(string, string)>): string
  {
    Join(Terms(parts), AndSeparator)
  }

  /** The `exprs` loop of `_build_paged_url` (lines 227-232). */
  method CombineParts(parts: seq<(string, string)>) returns (combined: string)
    ensures combined == CombinedExpression(parts)
  {
    var exprs: seq<string> := [];
    for k := 0 to |parts|
      invariant exprs == Expressions(parts[..k])
    {
      var (field, kw) := parts[k];
      assert parts[..k + 1][..k] == parts[..k];
      exprs := exprs + [SearchExpression(field, kw)];
    }
    assert parts[..|parts|] == parts;
    if exprs == [] {
      exprs := ["all:*"];
    }
    combined := Join(exprs, AndSeparator);
  }

  /** With no parts the combined expression is exactly `all:*`; otherwise
      the expression of part `k` sits at `JoinOffset(..., k)`,
      neighbouring expressions are separated by exactly `+AND+`. */
  lemma CombinedLayout(parts: seq<(string, string)>, k: nat)
    requires k < |parts|
    ensures CombinedExpression([]) == "all:*"
    ensures var e := CombinedExpression(parts); var o := JoinOffset(Expressions(parts), AndSeparator, k);
      var x := SearchExpression(parts[k].0, parts[k].1);
      && o + |x| <= |e| && e[o..o + |x|] == x
      && (k + 1 < |parts| ==>
            && JoinOffset(Expressions(parts), AndSeparator, k + 1) <= |e|
            && e[o + |x|..JoinOffset(Expressions(parts), AndSeparator, k + 1)] == AndSeparator)
  {
    JoinPiece(Expressions(parts), AndSeparator, k);
    if k + 1 < |parts| {
      JoinSeparator(Expressions(parts), AndSeparator, k);
    }
  }

  /** The last part's expression ends the combined expression: nothing
      follows it. */
  lemma CombinedEnds(parts: seq<(string, string)>)
    requires parts != []
    ensures |CombinedExpression(parts)|
         == JoinOffset(Expressions(parts), AndSeparator, |parts| - 1) + |Expressions(parts)[|parts| - 1]|
  {
    JoinLength(Expressions(parts), AndSeparator);
  }

  /** The decimal text of a natural number, as an f-string writes an `int`. */
  function DecimalString(n: nat): (s: string)
    ensures |s| >= 1 && forall j :: 0 <= j < |s| ==> IsAsciiDigit(s[j])
    ensures |s| > 1 ==> s[0] != '0'
  {
    var d := ['0', '1', '2', '3', '4', '5', '6', '7', '8', '9'][n % 10];
    if n < 10 then [d] else DecimalString(n / 10) + [d]
  }

  /** The value of a string of decimal digits. */
  function DecimalValue(s: string): nat
    requires forall j :: 0 <= j < |s| ==> IsAsciiDigit(s[j])
  {
    if s == [] then 0
    else
      assert IsAsciiDigit(s[|s| - 1]);
      DecimalValue(s[..|s| - 1]) * 10 + (s[|s| - 1] as int - '0' as int)
  }

  /** Reading the digits back gives the number: the start index and the
      page size in a URL are exactly the loop's values. */
  lemma {:induction false} DecimalRoundTrip(n: nat)
    ensures DecimalValue(DecimalString(n)) == n
  {
    var s := DecimalString(n);
    if n >= 10 {
      DecimalRoundTrip(n / 10);
      assert s[..|s| - 1] == DecimalString(n / 10);
    }
  }

  const BaseUrl: string := "http://export.arxiv.org/api/query?search_query="
  /** The query parameters of the URLs, each as its f-string writes it. */
  const StartParam: string := "&start="
  const MaxResultsParam: string := "&max_results="
  const SortByParam: string := "&sortBy=submittedDate"
  const SortOrderParam: string := "&sortOrder=descending"

  /** `getArXivQuery(query_parts, max_results=...)`: the URL of the first
      page (`&start=0`); the date arguments are not used. */
  function FirstPageUrl(encode: string -> string, parts: seq<(string, string)>, maxResults: nat): string
  {
    BaseUrl + encode(CombinedExpression(parts)) + StartParam + "0" + MaxResultsParam + DecimalString(maxResults)
  }

  /** `_build_paged_url(query_parts, start_index, chunk_size)` */
  function PagedUrl(encode: string -> string, parts: seq<(string, string)>, start: nat, chunk: nat): string
  {
    BaseUrl + encode(CombinedExpression(parts)) + StartParam + DecimalString(start)
      + MaxResultsParam + DecimalString(chunk) + SortByParam + SortOrderParam
  }

  /** The paged URL of the first page is `getArXivQuery`'s URL with the
      sort order appended; the two differ in nothing else. */
  lemma PagedUrlExtendsFirstPage(encode: string -> string, parts: seq<(string, string)>, chunk: nat)
    ensures PagedUrl(encode, parts, 0, chunk) == FirstPageUrl(encode, parts, chunk) + SortByParam + SortOrderParam
  {
    assert DecimalString(0) == "0";
  }

  /** The identifier and version read off an entry's `<id>`. `version` is
      `None` where the Python code keeps its default, the integer 1. */
  datatype IdVersion = IdVersion(arxivId: string, version: Option<string>)

  /** `url.split('/')[-1]` */
  function LastSegment(url: string): string
  {
    var pieces := Split(url, '/');
    pieces[|pieces| - 1]
  }

  /** Lines 184-189: `split_id = url.split('/')[-1].split('v')`. */
  function SplitId(url: string): IdVersion
  {
    var pieces := Split(LastSegment(url), 'v');
    IdVersion(pieces[0], if |pieces| > 1 then Some(pieces[1]) else None)
  }

  /** The identifier is the last segment up to its first `v`, and a version
      is read exactly when the segment has a `v`: the text after that `v`
      up to the next `v` or the end, so that `2301.0001v2v3` gives `2`.
      Neither part contains a `/` or a `v`. */
  lemma SplitIdParts(url: string)
    ensures var r := SplitId(url); var seg := LastSegment(url);
      && '/' !in r.arxivId && 'v' !in r.arxivId
      && r.arxivId == BeforeFirst(seg, 'v')
      && (r.version.Some? <==> 'v' in seg)
      && (r.version.Some? ==> '/' !in r.version.value && 'v' !in r.version.value)
      && (r.version.Some? ==> r.version.value == BeforeFirst(seg[IndexOf(seg, 'v') + 1..], 'v'))
      && (r.version.None? ==> r.arxivId == seg)
  {
    var seg := LastSegment(url);
    SplitHead(seg, 'v');
    if 'v' in seg {
      SplitFirst(seg, 'v');
      SplitHead(seg[IndexOf(seg, 'v') + 1..], 'v');
    }
    SplitPiecesFree(url, '/');
    assert '/' !in seg;
    var pieces := Split(seg, 'v');
    SplitPiecesFree(seg, 'v');
    assert Join(pieces, ['v']) == seg;
    forall k | 0 <= k < |pieces| ensures '/' !in pieces[k] {
      JoinPieceIn(pieces, ['v'], k);
    }
  }

  /** A piece of a join is a part of the joined string. */
  lemma JoinPieceIn(parts: seq<string>, sep: string, k: nat)
    requires k < |parts|
    ensures forall c :: c in parts[k] ==> c in Join(parts, sep)
  {
    JoinPiece(parts, sep, k);
    var j := Join(parts, sep);
    var o := JoinOffset(parts, sep, k);
    forall c | c in parts[k] ensures c in j {
      var i :| 0 <= i < |parts[k]| && parts[k][i] == c;
      assert j[o..o + |parts[k]|][i] == j[o + i];
    }
  }

  /** An `<id>` of the usual form `.../<id>v<version>` gives back its
      identifier and version. */
  lemma SplitIdRoundTrip(prefix: string, id: string, version: string)
    requires '/' !in id && 'v' !in id && '/' !in version && 'v' !in version
    ensures SplitId(prefix + "/" + id + "v" + version) == IdVersion(id, Some(version))
  {
    var seg := id + "v" + version;
    assert '/' !in seg;
    assert prefix + "/" + id + "v" + version == prefix + ['/'] + seg;
    SplitAfter(prefix, '/', seg);
    assert id + "v" + version == id + ['v'] + version;
    SplitAfter(id, 'v', version);
  }

  /** With further `v`s after the version, only the text up to the second
      `v` is the version: `.../2301.0001v2v3` gives `2301.0001` and `2`. */
  lemma SplitIdExtraVersions(prefix: string, id: string, version: string, rest: string)
    requires '/' !in id && 'v' !in id && '/' !in version && 'v' !in version && '/' !in rest
    ensures SplitId(prefix + "/" + id + "v" + version + "v" + rest) == IdVersion(id, Some(version))
  {
    var seg := id + ['v'] + (version + ['v'] + rest);
    var url := prefix + "/" + id + "v" + version + "v" + rest;
    assert url == prefix + ['/'] + seg;
    LastSegmentAfter(prefix, seg);
    SegmentVersions(id, version, rest);
    SplitIdOfSegment(url, seg, id, version);
  }

  lemma SegmentVersions(id: string, version: string, rest: string)
    requires 'v' !in id && 'v' !in version
    ensures var seg := id + ['v'] + (version + ['v'] + rest);
      && 'v' in seg && BeforeFirst(seg, 'v') == id
      && BeforeFirst(seg[IndexOf(seg, 'v') + 1..], 'v') == version
  {
    var after := version + ['v'] + rest;
    var seg := id + ['v'] + after;
    IndexOfFirst(seg, 'v', |id|);
    assert seg[|id| + 1..] == after;
    IndexOfFirst(after, 'v', |version|);
  }


  lemma LastSegmentAfter(prefix: string, seg: string)
    requires '/' !in seg
    ensures LastSegment(prefix + ['/'] + seg) == seg
  {
    SplitAfter(prefix, '/', seg);
  }

  lemma SplitIdOfSegment(url: string, seg: string, id: string, version: string)
    requires LastSegment(url) == seg && 'v' in seg
    requires BeforeFirst(seg, 'v') == id && BeforeFirst(seg[IndexOf(seg, 'v') + 1..], 'v') == version
    ensures SplitId(url) == IdVersion(id, Some(version))
  {
    SplitIdParts(url);
  }


}
