/** The paging loop and the published-date filter of `queryArXiv`. A page is
    what `urlopen`, `ET.fromstring` and `findall` give for its URL: the
    `fetch` parameter maps a URL to the page's `<entry>` elements. An entry
    is the list of its child elements, each a tag and its text. */
module ArxivFeed {
  import opened Wrappers
  import opened Text
  import opened ArxivQuery
  import opened ArxivDates

  datatype AtomChild = AtomChild(tag: string, text: Option<string>)

  datatype AtomEntry = AtomEntry(children: seq<AtomChild>)

  /** The text of the first child with the tag, `None` when there is none
      (or when that child has no text). */
  function FirstText(children: seq<AtomChild>, tag: string): Option<string>
  {
    if children == [] then None
    else if children[0].tag == tag then children[0].text
    else FirstText(children[1..], tag)
  }

  lemma {:induction false} FirstTextAt(children: seq<AtomChild>, tag: string, k: nat)
    requires k < |children| && children[k].tag == tag
    requires forall j :: 0 <= j < k ==> children[j].tag != tag
    ensures FirstText(children, tag) == children[k].text
  {
    if k > 0 {
      FirstTextAt(children[1..], tag, k - 1);
    }
  }

  lemma {:induction false} FirstTextAbsent(children: seq<AtomChild>, tag: string)
    requires forall j :: 0 <= j < |children| ==> children[j].tag != tag
    ensures FirstText(children, tag) == None
  {
    if children != [] {
      FirstTextAbsent(children[1..], tag);
    }
  }

  /** The `<published>` text of an entry. */
  function PublishedText(entry: AtomEntry, ns: string): Option<string>
  {
    FirstText(entry.children, ns + "published")
  }

  /** Lines 150-154: the search for the `<published>` child, stopping at the
      first. */
  method FindPublished(entry: AtomEntry, ns: string) returns (text: Option<string>)
    ensures text == PublishedText(entry, ns)
  {
    var tag := ns + "published";
    var k := 0;
    while k < |entry.children|
      invariant k <= |entry.children|
      invariant forall j :: 0 <= j < k ==> entry.children[j].tag != tag
    {
      if entry.children[k].tag == tag {
        text := entry.children[k].text;
        FirstTextAt(entry.children, tag, k);
        return;
      }
      k := k + 1;
    }
    FirstTextAbsent(entry.children, tag);
    text := None;
  }

  function PublishedDate(strptime: (string, Format) -> Option<DateTime>, ns: string, entry: AtomEntry): Option<DateTime>
  {
    ParseAtomDate(strptime, PublishedText(entry, ns))
  }

  /** Line 156: the complement of the removal test. */
  predicate Keep(strptime: (string, Format) -> Option<DateTime>, ns: string,
                 sdt: Option<DateTime>, edt: Option<DateTime>, entry: AtomEntry)
  {
    var pub := PublishedDate(strptime, ns, entry);
    !(pub.None? || (sdt.Some? && Before(pub.value, sdt.value)) || (edt.Some? && Before(edt.value, pub.value)))
  }

  /** The entries that pass the test, in their order. */
  function Filtered(strptime: (string, Format) -> Option<DateTime>, ns: string,
                    sdt: Option<DateTime>, edt: Option<DateTime>, entries: seq<AtomEntry>): seq<AtomEntry>
  {
    if entries == [] then []
    else
      var last := entries[|entries| - 1];
      Filtered(strptime, ns, sdt, edt, entries[..|entries| - 1]) + (if Keep(strptime, ns, sdt, edt, last) then [last] else [])
  }

  /** An entry survives exactly when it was there and its published date
      parses and lies within the bounds, both inclusive. */
  lemma {:induction false} FilteredMembers(strptime: (string, Format) -> Option<DateTime>, ns: string,
                                           sdt: Option<DateTime>, edt: Option<DateTime>, entries: seq<AtomEntry>, x: AtomEntry)
    ensures x in Filtered(strptime, ns, sdt, edt, entries) <==>
      && x in entries
      && PublishedDate(strptime, ns, x).Some?
      && (sdt.Some? ==> !Before(PublishedDate(strptime, ns, x).value, sdt.value))
      && (edt.Some? ==> !Before(edt.value, PublishedDate(strptime, ns, x).value))
  {
    if entries != [] {
      var init := entries[..|entries| - 1];
      FilteredMembers(strptime, ns, sdt, edt, init, x);
      assert entries == init + [entries[|entries| - 1]];
    }
  }

  /** One more entry of a list: it is kept or not. */
  lemma FilteredStep(strptime: (string, Format) -> Option<DateTime>, ns: string,
                     sdt: Option<DateTime>, edt: Option<DateTime>, s: seq<AtomEntry>, k: nat)
    requires k < |s|
    ensures Filtered(strptime, ns, sdt, edt, s[..k + 1])
         == Filtered(strptime, ns, sdt, edt, s[..k]) + (if Keep(strptime, ns, sdt, edt, s[k]) then [s[k]] else [])
  {
    assert s[..k + 1][..k] == s[..k];
  }

  /** Removing the element just after a prefix. */
  lemma DropAt<T>(kept: seq<T>, s: seq<T>, k: nat)
    requires k < |s|
    ensures (kept + s[k..])[..|kept|] + (kept + s[k..])[|kept| + 1..] == kept + s[k + 1..]
  {
    assert (kept + s[k..])[..|kept|] == kept;
    assert (kept + s[k..])[|kept| + 1..] == s[k + 1..];
  }

  /** Keeping the element just after a prefix. */
  lemma KeepAt<T>(kept: seq<T>, s: seq<T>, k: nat)
    requires k < |s|
    ensures kept + [s[k]] + s[k + 1..] == kept + s[k..]
  {
    assert s[k..] == [s[k]] + s[k + 1..];
  }

  /** Filtering distributes over concatenation: the survivors keep their
      relative order. */
  lemma {:induction false} FilteredAppend(strptime: (string, Format) -> Option<DateTime>, ns: string,
                                          sdt: Option<DateTime>, edt: Option<DateTime>, a: seq<AtomEntry>, b: seq<AtomEntry>)
    ensures Filtered(strptime, ns, sdt, edt, a + b) == Filtered(strptime, ns, sdt, edt, a) + Filtered(strptime, ns, sdt, edt, b)
    decreases |b|
  {
    if b == [] {
      assert a + b == a;
    } else {
      var init := b[..|b| - 1];
      var last := b[|b| - 1];
      var tail := if Keep(strptime, ns, sdt, edt, last) then [last] else [];
      assert (a + b)[..|a + b| - 1] == a + init;
      assert (a + b)[|a + b| - 1] == last;
      FilteredAppend(strptime, ns, sdt, edt, a, init);
      assert Filtered(strptime, ns, sdt, edt, a + b) == Filtered(strptime, ns, sdt, edt, a + init) + tail;
      ConcatAssoc(Filtered(strptime, ns, sdt, edt, a), Filtered(strptime, ns, sdt, edt, init), tail);
    }
  }

  /** Filtering never adds and never reorders: the result is no longer than
      the input, and equal to it when every entry passes. */
  lemma {:induction false} FilteredAllKept(strptime: (string, Format) -> Option<DateTime>, ns: string,
                                           sdt: Option<DateTime>, edt: Option<DateTime>, entries: seq<AtomEntry>)
    ensures |Filtered(strptime, ns, sdt, edt, entries)| <= |entries|
    ensures (forall k :: 0 <= k < |entries| ==> Keep(strptime, ns, sdt, edt, entries[k]))
        ==> Filtered(strptime, ns, sdt, edt, entries) == entries
  {
    if entries != [] {
      var init := entries[..|entries| - 1];
      FilteredAllKept(strptime, ns, sdt, edt, init);
      assert entries == init + [entries[|entries| - 1]];
    }
  }

  /** Lines 146-148: the filter runs only when a date string is given, and a
      bound is read only from a given string. */
  predicate Filtering(startDate: Option<string>, endDate: Option<string>)
  {
    Truthy(startDate) || Truthy(endDate)
  }

  function StartBound(strptime: (string, Format) -> Option<DateTime>, startDate: Option<string>): Option<DateTime>
  {
    if Truthy(startDate) then ParseUserDate(strptime, startDate, true) else None
  }

  function EndBound(strptime: (string, Format) -> Option<DateTime>, endDate: Option<string>): Option<DateTime>
  {
    if Truthy(endDate) then ParseUserDate(strptime, endDate, false) else None
  }

  /** The entries left by the filtering block of `queryArXiv`. */
  function Pruned(strptime: (string, Format) -> Option<DateTime>, ns: string,
                  startDate: Option<string>, endDate: Option<string>, entries: seq<AtomEntry>): seq<AtomEntry>
  {
    if Filtering(startDate, endDate)
    then Filtered(strptime, ns, StartBound(strptime, startDate), EndBound(strptime, endDate), entries)
    else entries
  }

  /** Without a date string nothing is removed; a date string that does not
      parse removes nothing by itself, but it still turns the filter on, so
      then exactly the entries whose published date parses are kept. */
  lemma PrunedBounds(strptime: (string, Format) -> Option<DateTime>, ns: string,
                     startDate: Option<string>, endDate: Option<string>, entries: seq<AtomEntry>, x: AtomEntry)
    ensures !Filtering(startDate, endDate) ==> Pruned(strptime, ns, startDate, endDate, entries) == entries
    ensures Filtering(startDate, endDate) && ParseUserDate(strptime, startDate, true).None?
              && ParseUserDate(strptime, endDate, false).None?
        ==> (x in Pruned(strptime, ns, startDate, endDate, entries) <==> x in entries && PublishedDate(strptime, ns, x).Some?)
  {
    FilteredMembers(strptime, ns, StartBound(strptime, startDate), EndBound(strptime, endDate), entries, x);
  }

  /** When the start and end strings are the same day, an entry published
      at any clock time of that day passes the filter: a one-day range
      keeps the whole day, both of its ends included. */
  lemma RangeInclusive(strptime: (string, Format) -> Option<DateTime>, ns: string,
                       startDate: Option<string>, endDate: Option<string>, x: AtomEntry)
    requires PublishedDate(strptime, ns, x).Some? && ClockTime(PublishedDate(strptime, ns, x).value)
    requires startDate == endDate
    requires StartBound(strptime, startDate).Some?
    requires SameDay(PublishedDate(strptime, ns, x).value, StartBound(strptime, startDate).value)
    ensures Keep(strptime, ns, StartBound(strptime, startDate), EndBound(strptime, endDate), x)
  {
    UserDatesCoverDay(strptime, startDate, PublishedDate(strptime, ns, x).value);
  }

  /** Lines 151-158 for one entry: reads its `<published>` text and
      decides whether the entry is removed. */
  method OutOfRange(strptime: (string, Format) -> Option<DateTime>, ns: string,
                    sdt: Option<DateTime>, edt: Option<DateTime>, e: AtomEntry) returns (drop: bool)
    ensures drop <==> !Keep(strptime, ns, sdt, edt, e)
  {
    var publishedText := FindPublished(e, ns);
    var pubDt := ParseAtomDate(strptime, publishedText);
    drop := pubDt.None? || (sdt.Some? && Before(pubDt.value, sdt.value)) || (edt.Some? && Before(edt.value, pubDt.value));
  }

  /** The state of the removal loop after the first `k` entries of the
      snapshot: `kept` are the survivors among them, and the feed holds
      them followed by the entries not yet visited, the next at `pos`. */
  ghost predicate Visited(strptime: (string, Format) -> Option<DateTime>, ns: string,
                          sdt: Option<DateTime>, edt: Option<DateTime>, snapshot: seq<AtomEntry>,
                          k: nat, kept: seq<AtomEntry>, entries: seq<AtomEntry>, pos: nat)
  {
    && k <= |snapshot|
    && kept == Filtered(strptime, ns, sdt, edt, snapshot[..k])
    && entries == kept + snapshot[k..]
    && pos == |kept|
  }

  /** The feed built from all pages; `entries` are its `<entry>` children.
      `remove` is by identity in ElementTree; here by position, the
      position of the entry the loop is at. */
  class Feed {
    var entries: seq<AtomEntry>

    constructor ()
      ensures entries == []
    {
      entries := [];
    }

    /** `combined_root.append(e)` */
    method Append(e: AtomEntry)
      modifies this
      ensures entries == old(entries) + [e]
    {
      entries := entries + [e];
    }

    /** `combined_root.remove(entry_elem)` of the entry at position `k`. */
    method Remove(k: nat)
      requires k < |entries|
      modifies this
      ensures entries == old(entries)[..k] + old(entries)[k + 1..]
    {
      entries := entries[..k] + entries[k + 1..];
    }

    /** Lines 146-159: with a date string given, removes every entry
        outside the range of the bounds read from the strings. */
    method Prune(strptime: (string, Format) -> Option<DateTime>, ns: string,
                 startDate: Option<string>, endDate: Option<string>)
      modifies this
      ensures entries == Pruned(strptime, ns, startDate, endDate, old(entries))
    {
      if Truthy(startDate) || Truthy(endDate) {
        var sdt := if Truthy(startDate) then ParseUserDate(strptime, startDate, true) else None;
        var edt := if Truthy(endDate) then ParseUserDate(strptime, endDate, false) else None;
        RemoveOutOfRange(strptime, ns, sdt, edt);
      }
    }

    /** Lines 149-159: over a copy of the entry list, removes each entry
        whose published date does not parse or lies outside the bounds. */
    method RemoveOutOfRange(strptime: (string, Format) -> Option<DateTime>, ns: string,
                            sdt: Option<DateTime>, edt: Option<DateTime>)
      modifies this
      ensures entries == Filtered(strptime, ns, sdt, edt, old(entries))
    {
      var snapshot := entries;
      var pos := 0;
      ghost var kept: seq<AtomEntry> := [];
      assert snapshot[..0] == [] && snapshot[0..] == snapshot;
      for k := 0 to |snapshot|
        invariant Visited(strptime, ns, sdt, edt, snapshot, k, kept, entries, pos)
      {
        pos, kept := RemoveIfOutOfRange(strptime, ns, sdt, edt, snapshot, k, pos, kept);
      }
      assert snapshot[..|snapshot|] == snapshot && snapshot[|snapshot|..] == [];
      assert entries == kept;
    }

    /** One pass of the loop of lines 151-159: the entry at `k` of the
        snapshot, which sits at `pos` in the feed, is removed or kept. */
    method RemoveIfOutOfRange(strptime: (string, Format) -> Option<DateTime>, ns: string,
                              sdt: Option<DateTime>, edt: Option<DateTime>, snapshot: seq<AtomEntry>,
                              k: nat, pos: nat, ghost kept: seq<AtomEntry>)
      returns (pos': nat, ghost kept': seq<AtomEntry>)
      requires k < |snapshot| && Visited(strptime, ns, sdt, edt, snapshot, k, kept, entries, pos)
      modifies this
      ensures Visited(strptime, ns, sdt, edt, snapshot, k + 1, kept', entries, pos')
    {
      FilteredStep(strptime, ns, sdt, edt, snapshot, k);
      var drop := OutOfRange(strptime, ns, sdt, edt, snapshot[k]);
      if drop {
        DropAt(kept, snapshot, k);
        Remove(pos);
        pos', kept' := pos, kept;
      } else {
        KeepAt(kept, snapshot, k);
        pos', kept' := pos + 1, kept + [snapshot[k]];
      }
    }
  }

  /** arXiv's largest page, and the most results it serves for one query. */
  const ChunkSize: nat := 2000
  const MaxTotal: nat := 30000

  /** The page the loop reads for a start index: what `fetch` gives for
      the paged URL. */
  function PagesOf(fetch: string -> seq<AtomEntry>, encode: string -> string, parts: seq<(string, string)>): nat -> seq<AtomEntry>
  {
    (start: nat) => fetch(PagedUrl(encode, parts, start, ChunkSize))
  }

  /** Whether the loop goes on after the page at `start`, with `total`
      entries collected before it. */
  predicate Continues(pages: nat -> seq<AtomEntry>, start: nat, total: nat)
  {
    var page := pages(start);
    page != [] && !(|page| < ChunkSize || total + |page| >= MaxTotal)
  }

  /** The entries the paging loop collects from `start` on. */
  function Collect(pages: nat -> seq<AtomEntry>, start: nat, total: nat): seq<AtomEntry>
    requires total < MaxTotal
    decreases MaxTotal - total
  {
    var page := pages(start);
    if Continues(pages, start, total)
    then page + Collect(pages, start + ChunkSize, total + |page|)
    else page
  }

  /** The start indexes the loop asks for, in order. */
  function Requests(pages: nat -> seq<AtomEntry>, start: nat, total: nat): (r: seq<nat>)
    requires total < MaxTotal
    ensures |r| >= 1 && r[0] == start
    decreases MaxTotal - total
  {
    if Continues(pages, start, total)
    then [start] + Requests(pages, start + ChunkSize, total + |pages(start)|)
    else [start]
  }

  /** The entries of the pages at the given starts, one after the other. */
  function Fetched(pages: nat -> seq<AtomEntry>, starts: seq<nat>): seq<AtomEntry>
  {
    if starts == [] then [] else pages(starts[0]) + Fetched(pages, starts[1..])
  }

  /** The loop asks for `start`, `start + 2000`, `start + 4000`, ... */
  lemma {:induction false} RequestsStarts(pages: nat -> seq<AtomEntry>, start: nat, total: nat)
    requires total < MaxTotal
    ensures var r := Requests(pages, start, total);
      r[0] == start && forall k :: 0 <= k < |r| - 1 ==> r[k + 1] == r[k] + ChunkSize
    decreases MaxTotal - total
  {
    var r := Requests(pages, start, total);
    if Continues(pages, start, total) {
      var next := total + |pages(start)|;
      RequestsStarts(pages, start + ChunkSize, next);
      var rest := Requests(pages, start + ChunkSize, next);
      assert r == [start] + rest;
      forall k | 1 <= k < |r| - 1 ensures r[k + 1] == r[k] + ChunkSize {
        assert r[k] == rest[k - 1] && r[k + 1] == rest[k];
      }
    }
  }

  /** Every page but the last was full: the last is the one that was empty,
      short, or reached the 30000 mark. */
  lemma {:induction false} RequestsFullPages(pages: nat -> seq<AtomEntry>, start: nat, total: nat)
    requires total < MaxTotal
    ensures var r := Requests(pages, start, total);
      && (forall k :: 0 <= k < |r| - 1 ==> |pages(r[k])| >= ChunkSize)
      && !Continues(pages, r[|r| - 1], total + |Fetched(pages, r[..|r| - 1])|)
    decreases MaxTotal - total
  {
    var r := Requests(pages, start, total);
    if Continues(pages, start, total) {
      var page := pages(start);
      var next := total + |page|;
      RequestsFullPages(pages, start + ChunkSize, next);
      var rest := Requests(pages, start + ChunkSize, next);
      forall k | 1 <= k < |r| - 1 ensures |pages(r[k])| >= ChunkSize {
        assert r[k] == rest[k - 1];
      }
      assert r[..|r| - 1] == [start] + rest[..|rest| - 1];
      assert r[..|r| - 1][1..] == rest[..|rest| - 1];
    }
  }

  /** What the loop collects is the entries of the requested pages, in
      request order. */
  lemma {:induction false} CollectIsFetched(pages: nat -> seq<AtomEntry>, start: nat, total: nat)
    requires total < MaxTotal
    ensures Collect(pages, start, total) == Fetched(pages, Requests(pages, start, total))
    decreases MaxTotal - total
  {
    if Continues(pages, start, total) {
      var next := total + |pages(start)|;
      CollectIsFetched(pages, start + ChunkSize, next);
      assert Requests(pages, start, total)[1..] == Requests(pages, start + ChunkSize, next);
    } else {
      assert Requests(pages, start, total)[1..] == [];
    }
  }

  /** Each further request follows a page of at least 2000 entries and stays
      below 30000 collected. */
  lemma {:induction false} RequestsCount(pages: nat -> seq<AtomEntry>, start: nat, total: nat)
    requires total < MaxTotal
    ensures |Requests(pages, start, total)| * ChunkSize <= MaxTotal - total + ChunkSize - 1
    decreases MaxTotal - total
  {
    if Continues(pages, start, total) {
      RequestsCount(pages, start + ChunkSize, total + |pages(start)|);
    }
  }

  /** So one query makes at most 15 requests. */
  lemma AtMostFifteenRequests(pages: nat -> seq<AtomEntry>)
    ensures |Requests(pages, 0, 0)| <= 15
  {
    RequestsCount(pages, 0, 0);
  }

  /** Whatever the pages hold, the loop stops before collecting
      `30000 + m` entries when no page has more than `m`. */
  lemma {:induction false} CollectBound(pages: nat -> seq<AtomEntry>, start: nat, total: nat, m: nat)
    requires total < MaxTotal
    requires forall k: nat :: |pages(k)| <= m
    ensures total + |Collect(pages, start, total)| < MaxTotal + m || (m == 0 && Collect(pages, start, total) == [])
    decreases MaxTotal - total
  {
    if Continues(pages, start, total) {
      CollectBound(pages, start + ChunkSize, total + |pages(start)|, m);
    }
  }

  /** With pages of at most 2000 entries, as arXiv serves them, the loop
      collects at most 30000 entries. */
  lemma {:induction false} CollectWithinLimit(pages: nat -> seq<AtomEntry>, start: nat, total: nat)
    requires total < MaxTotal && total % ChunkSize == 0
    requires forall k: nat :: |pages(k)| <= ChunkSize
    ensures total + |Collect(pages, start, total)| <= MaxTotal
    decreases MaxTotal - total
  {
    var page := pages(start);
    if Continues(pages, start, total) {
      assert |page| == ChunkSize;
      CollectWithinLimit(pages, start + ChunkSize, total + |page|);
    } else {
      assert total <= MaxTotal - ChunkSize;
    }
  }

  /** Pages of 2001 entries each, more than a page may hold. */
  function OversizedPages(): nat -> seq<AtomEntry>
  {
    (start: nat) => seq(2001, _ => AtomEntry([]))
  }

  lemma {:induction false} OversizedFrom(start: nat, j: nat)
    requires j <= 14
    ensures |Collect(OversizedPages(), start, 2001 * j)| == 2001 * (15 - j)
    decreases 14 - j
  {
    assert |OversizedPages()(start)| == 2001;
    if j < 14 {
      OversizedFrom(start + ChunkSize, j + 1);
    }
  }

  /** The 30000 mark is a bound only for pages within the page size: pages
      of 2001 entries make the loop collect 30015. */
  lemma OversizedPagesExceedLimit()
    ensures |Collect(OversizedPages(), 0, 0)| == 30015
  {
    OversizedFrom(0, 0);
  }

  /** Lines 114-121: one request, for the page starting at `start`. */
  method FetchPage(fetch: string -> seq<AtomEntry>, encode: string -> string, parts: seq<(string, string)>, start: nat)
    returns (page: seq<AtomEntry>)
    ensures page == PagesOf(fetch, encode, parts)(start)
  {
    var url := PagedUrl(encode, parts, start, ChunkSize);
    page := fetch(url);
  }

  /** `queryArXiv`'s `while True` loop (lines 109-135). */
  method FetchAll(fetch: string -> seq<AtomEntry>, encode: string -> string, parts: seq<(string, string)>) returns (all: seq<AtomEntry>)
    ensures all == Collect(PagesOf(fetch, encode, parts), 0, 0)
  {
    ghost var pages := PagesOf(fetch, encode, parts);
    all := [];
    var startIndex: nat := 0;
    var totalCollected: nat := 0;
    while true
      invariant totalCollected < MaxTotal
      invariant all + Collect(pages, startIndex, totalCollected) == Collect(pages, 0, 0)
      decreases MaxTotal - totalCollected
    {
      var pageEntries := FetchPage(fetch, encode, parts, startIndex);
      if pageEntries == [] {
        assert all == Collect(pages, 0, 0);
        break;
      }
      ghost var before := Collect(pages, startIndex, totalCollected);
      ghost var prior := all;
      all := all + pageEntries;
      totalCollected := totalCollected + |pageEntries|;
      if |pageEntries| < ChunkSize || totalCollected >= MaxTotal {
        assert before == pageEntries;
        break;
      }
      assert before == pageEntries + Collect(pages, startIndex + ChunkSize, totalCollected);
      ConcatAssoc(prior, pageEntries, Collect(pages, startIndex + ChunkSize, totalCollected));
      startIndex := startIndex + ChunkSize;
    }
  }

  /** `queryArXiv(query_parts, start_date, end_date)`: every page's entries
      in one feed, then the date filter. The namespace `ns` is an input. */
  method QueryArXiv(fetch: string -> seq<AtomEntry>, encode: string -> string, strptime: (string, Format) -> Option<DateTime>,
                    ns: string, parts: seq<(string, string)>, startDate: Option<string>, endDate: Option<string>)
    returns (feed: Feed)
    ensures fresh(feed)
    ensures feed.entries == Pruned(strptime, ns, startDate, endDate, Collect(PagesOf(fetch, encode, parts), 0, 0))
  {
    var all := FetchAll(fetch, encode, parts);
    feed := new Feed();
    for k := 0 to |all|
      invariant feed.entries == all[..k]
    {
      assert all[..k + 1] == all[..k] + [all[k]];
      feed.Append(all[k]);
    }
    assert all[..|all|] == all;
    feed.Prune(strptime, ns, startDate, endDate);
  }
}
