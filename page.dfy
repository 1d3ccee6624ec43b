/** The full-page viewer: every quote of the store in one list, newest first,
    searchable, filterable by file and shown grouped by source page; single,
    batch and total deletion; export of a file as markdown grouped by source. */
module Page {
  import opened Text
  import opened Store

  // ---------------------------------------------------------------------------
  // Flattening the store

  /** The quotes of one file, each tagged with the file's name. */
  function Tag(name: string, quotes: seq<Quote>): (r: seq<Entry>)
    ensures |r| == |quotes|
    ensures forall i :: 0 <= i < |quotes| ==> r[i] == Entry(name, quotes[i])
  {
    if quotes == [] then [] else Tag(name, quotes[..|quotes| - 1]) + [Entry(name, quotes[|quotes| - 1])]
  }

  lemma TagMembers(name: string, quotes: seq<Quote>, e: Entry)
    ensures e in Tag(name, quotes) <==> e.fileName == name && e.quote in quotes
  {
    var r := Tag(name, quotes);
    if e.fileName == name && e.quote in quotes {
      var i :| 0 <= i < |quotes| && quotes[i] == e.quote;
      assert r[i] == e;
    }
  }

  /** Each entry of `Tag(name, quotes)` occurs as often as its quote does in `quotes`. */
  lemma {:induction false} TagCounts(name: string, quotes: seq<Quote>, e: Entry)
    ensures multiset(Tag(name, quotes))[e] == if e.fileName == name then multiset(quotes)[e.quote] else 0
  {
    if quotes != [] {
      var init := quotes[..|quotes| - 1];
      TagCounts(name, init, e);
      assert quotes == init + [quotes[|quotes| - 1]];
    }
  }

  /** `keys` lists the names of `files`, each once, in some order (as
      `Object.entries` does). */
  predicate Enumerates(keys: seq<string>, files: Files) {
    && (forall k :: k in keys ==> k in files)
    && (forall k :: k in files ==> k in keys)
    && (forall i, j :: 0 <= i < j < |keys| ==> keys[i] != keys[j])
  }

  /** The number of quotes held by the files `keys`. */
  function CountQuotes(files: Files, keys: seq<string>): nat
    requires forall k :: k in keys ==> k in files
  {
    if keys == [] then 0 else CountQuotes(files, keys[..|keys| - 1]) + |files[keys[|keys| - 1]].quotes|
  }

  /** Every quote of the files `keys`, file after file, each tagged with its file. */
  function Flatten(files: Files, keys: seq<string>): (r: seq<Entry>)
    requires forall k :: k in keys ==> k in files
    ensures |r| == CountQuotes(files, keys)
    ensures forall e :: e in r <==> e.fileName in keys && e.quote in files[e.fileName].quotes
  {
    if keys == [] then []
    else
      var last := keys[|keys| - 1];
      var r := Flatten(files, keys[..|keys| - 1]) + Tag(last, files[last].quotes);
      forall e ensures e in r <==> e.fileName in keys && e.quote in files[e.fileName].quotes {
        TagMembers(last, files[last].quotes, e);
        assert keys == keys[..|keys| - 1] + [last];
      }
      r
  }

  lemma FlattenSnoc(files: Files, keys: seq<string>, k: string)
    requires forall x :: x in keys ==> x in files
    requires k in files
    ensures Flatten(files, keys + [k]) == Flatten(files, keys) + Tag(k, files[k].quotes)
  {
    assert (keys + [k])[..|keys|] == keys;
  }

  /** Each stored quote becomes exactly one entry: over distinct file names,
      an entry occurs in the flattened list exactly as often as its quote
      occurs in its file. */
  lemma {:induction false} FlattenCounts(files: Files, keys: seq<string>, e: Entry)
    requires forall k :: k in keys ==> k in files
    requires forall i, j :: 0 <= i < j < |keys| ==> keys[i] != keys[j]
    ensures multiset(Flatten(files, keys))[e] ==
              if e.fileName in keys then multiset(files[e.fileName].quotes)[e.quote] else 0
  {
    if keys != [] {
      var init := keys[..|keys| - 1];
      var last := keys[|keys| - 1];
      assert keys == init + [last];
      FlattenCounts(files, init, e);
      FlattenSnoc(files, init, last);
      TagCounts(last, files[last].quotes, e);
      assert last !in init;
    }
  }

  // ---------------------------------------------------------------------------
  // Newest first: `allQuotes.sort((a, b) => b.savedAt - a.savedAt)`

  predicate NewestFirst(s: seq<Entry>) {
    forall i, j :: 0 <= i < j < |s| ==> s[i].quote.savedAt >= s[j].quote.savedAt
  }

  /** Put `e` in front of the first entry that is not newer than it. */
  function InsertNewest(e: Entry, s: seq<Entry>): (r: seq<Entry>)
    ensures multiset(r) == multiset(s) + multiset{e}
    ensures NewestFirst(s) ==> NewestFirst(r)
  {
    if s == [] || e.quote.savedAt >= s[0].quote.savedAt then
      NewestInFront(e, s);
      [e] + s
    else
      var tail := InsertNewest(e, s[1..]);
      NewestBehindHead(e, s, tail);
      [s[0]] + tail
  }

  lemma NewestInFront(e: Entry, s: seq<Entry>)
    requires s == [] || e.quote.savedAt >= s[0].quote.savedAt
    ensures multiset([e] + s) == multiset(s) + multiset{e}
    ensures NewestFirst(s) ==> NewestFirst([e] + s)
  {
  }

  /** Inserting behind the head: the head stays newest when `e` is older than it. */
  lemma NewestBehindHead(e: Entry, s: seq<Entry>, tail: seq<Entry>)
    requires s != [] && e.quote.savedAt < s[0].quote.savedAt
    requires multiset(tail) == multiset(s[1..]) + multiset{e}
    requires NewestFirst(s[1..]) ==> NewestFirst(tail)
    ensures multiset([s[0]] + tail) == multiset(s) + multiset{e}
    ensures NewestFirst(s) ==> NewestFirst([s[0]] + tail)
  {
    assert s == [s[0]] + s[1..];
    if NewestFirst(s) {
      forall j | 0 <= j < |tail| ensures tail[j].quote.savedAt <= s[0].quote.savedAt {
        assert tail[j] in multiset(tail);
        assert tail[j] == e || tail[j] in s[1..];
      }
    }
  }

  /** The stable sort newest first (`Array.prototype.sort` is stable). */
  function SortNewestFirst(s: seq<Entry>): (r: seq<Entry>)
    ensures NewestFirst(r)
    ensures multiset(r) == multiset(s)
  {
    if s == [] then []
    else
      assert s == [s[0]] + s[1..];
      InsertNewest(s[0], SortNewestFirst(s[1..]))
  }

  /** The entries saved at time `t`, in their order. */
  function SavedAt(s: seq<Entry>, t: int): seq<Entry> {
    if s == [] then [] else (if s[0].quote.savedAt == t then [s[0]] else []) + SavedAt(s[1..], t)
  }

  lemma SavedAtCons(x: Entry, s: seq<Entry>, t: int)
    ensures SavedAt([x] + s, t) == (if x.quote.savedAt == t then [x] else []) + SavedAt(s, t)
  {
    assert ([x] + s)[1..] == s;
  }

  lemma {:induction false} InsertNewestStable(e: Entry, s: seq<Entry>, t: int)
    ensures SavedAt(InsertNewest(e, s), t) == SavedAt([e] + s, t)
  {
    if s != [] && e.quote.savedAt < s[0].quote.savedAt {
      var x := s[0];
      var r := InsertNewest(e, s[1..]);
      assert InsertNewest(e, s) == [x] + r;
      InsertNewestStable(e, s[1..], t);
      SavedAtCons(x, r, t);
      SavedAtCons(e, s[1..], t);
      SavedAtCons(e, s, t);
      SavedAtCons(x, s[1..], t);
      assert s == [x] + s[1..];
      var rest := SavedAt(s[1..], t);
      if x.quote.savedAt == t {
        assert SavedAt([e] + s[1..], t) == rest;
        assert SavedAt([e] + s, t) == SavedAt(s, t) == [x] + rest;
      } else {
        assert SavedAt(s, t) == rest;
      }
    }
  }

  /** The sort is stable: entries saved at the same time keep their order. */
  lemma {:induction false} SortNewestFirstStable(s: seq<Entry>, t: int)
    ensures SavedAt(SortNewestFirst(s), t) == SavedAt(s, t)
  {
    if s != [] {
      SortNewestFirstStable(s[1..], t);
      InsertNewestStable(s[0], SortNewestFirst(s[1..]), t);
      assert ([s[0]] + SortNewestFirst(s[1..]))[1..] == SortNewestFirst(s[1..]);
    }
  }

  /** The inner `forEach` of `loadFiles`: push each quote of file `name`,
      tagged with the name, in order. */
  method AppendTagged(all: seq<Entry>, name: string, quotes: seq<Quote>) returns (r: seq<Entry>)
    ensures r == all + Tag(name, quotes)
  {
    r := all;
    var j := 0;
    while j < |quotes|
      invariant 0 <= j <= |quotes|
      invariant r == all + Tag(name, quotes[..j])
    {
      assert quotes[..j + 1][..j] == quotes[..j];
      r := r + [Entry(name, quotes[j])];
      j := j + 1;
    }
    assert quotes[..j] == quotes;
  }

  /** The nested `forEach` of `loadFiles` that builds the flat list; the files
      are visited in `Object.entries` order, which the model leaves open. */
  method FlattenQuotes(files: Files) returns (all: seq<Entry>)
    ensures exists keys :: Enumerates(keys, files) && all == Flatten(files, keys)
  {
    all := [];
    ghost var done: seq<string> := [];
    var rest := files.Keys;
    while rest != {}
      invariant rest <= files.Keys
      invariant forall k :: k in done ==> k in files
      invariant forall k :: k in files ==> (k in done <==> k !in rest)
      invariant forall i, j :: 0 <= i < j < |done| ==> done[i] != done[j]
      invariant all == Flatten(files, done)
      decreases rest
    {
      var name :| name in rest;
      all := AppendTagged(all, name, files[name].quotes);
      FlattenSnoc(files, done, name);
      done := done + [name];
      rest := rest - {name};
    }
    assert Enumerates(done, files);
  }

  // ---------------------------------------------------------------------------
  // Search and file filter

  /** The search box matches: empty, or found (ignoring case) in the quote's
      text, its title or its file's name. */
  predicate MatchesSearch(e: Entry, term: string) {
    || ToLower(term) == ""
    || ContainsIgnoringCase(e.quote.text, term)
    || ContainsIgnoringCase(e.quote.title, term)
    || ContainsIgnoringCase(e.fileName, term)
  }

  /** The file filter matches: "All files", or exactly this file. */
  predicate MatchesFile(e: Entry, fileFilter: string) {
    fileFilter == "" || e.fileName == fileFilter
  }

  /** `applyFilters`: the entries that match both the search box and the file
      filter, in their original order. */
  function FilterQuotes(quotes: seq<Entry>, term: string, fileFilter: string): (r: seq<Entry>)
    ensures Subseq(r, quotes)
    ensures forall e :: e in r <==> e in quotes && MatchesSearch(e, term) && MatchesFile(e, fileFilter)
    ensures term == "" && fileFilter == "" ==> r == quotes
  {
    if quotes == [] then []
    else if MatchesSearch(quotes[0], term) && MatchesFile(quotes[0], fileFilter) then
      [quotes[0]] + FilterQuotes(quotes[1..], term, fileFilter)
    else FilterQuotes(quotes[1..], term, fileFilter)
  }

  /** Every matching entry is kept as often as it occurs; every other one is dropped. */
  lemma {:induction false} FilterQuotesCounts(quotes: seq<Entry>, term: string, fileFilter: string)
    ensures forall x :: multiset(FilterQuotes(quotes, term, fileFilter))[x] == if MatchesSearch(x, term) && MatchesFile(x, fileFilter) then multiset(quotes)[x] else 0
  {
    if quotes != [] {
      FilterQuotesCounts(quotes[1..], term, fileFilter);
      assert quotes == [quotes[0]] + quotes[1..];
    }
  }

  // ---------------------------------------------------------------------------
  // Grouping by source page

  /** `getSourceKey(url)`: `parse` stands for `new URL(url)` and gives the
      URL's origin and path, or `None` when the URL does not parse; an
      unparseable URL is its own key. */
  function SourceKey(parse: string -> Option<string>, url: string): (key: string)
    ensures parse(url).Some? ==> key == parse(url).value
    ensures parse(url).None? ==> key == url
  {
    match parse(url)
    case Some(key) => key
    case None => url
  }

  /** One group of `groupQuotesBySource`: a source key and its entries. */
  datatype Group = Group(key: string, quotes: seq<Entry>)

  /** The entries whose URL has source key `key`, in their order. */
  function EntriesWithKey(s: seq<Entry>, parse: string -> Option<string>, key: string): (r: seq<Entry>)
    ensures forall e :: e in r <==> e in s && SourceKey(parse, e.quote.url) == key
    ensures |r| <= |s|
  {
    if s == [] then []
    else
      var last := s[|s| - 1];
      var r := EntriesWithKey(s[..|s| - 1], parse, key) + (if SourceKey(parse, last.quote.url) == key then [last] else []);
      assert s == s[..|s| - 1] + [last];
      r
  }

  /** `a` comes before `b`: it has more entries, or as many and a smaller key. */
  predicate GroupBefore(a: Group, b: Group) {
    || |a.quotes| > |b.quotes|
    || (|a.quotes| == |b.quotes| && LessEq(a.key, b.key) && a.key != b.key)
  }

  predicate GroupsOrdered(groups: seq<Group>) {
    forall i, j :: 0 <= i < j < |groups| ==> GroupBefore(groups[i], groups[j])
  }

  predicate DistinctKeys(groups: seq<Group>) {
    forall i, j :: 0 <= i < j < |groups| ==> groups[i].key != groups[j].key
  }

  function InsertGroup(g: Group, sorted: seq<Group>): (r: seq<Group>)
    requires GroupsOrdered(sorted)
    requires forall h :: h in sorted ==> h.key != g.key
    ensures GroupsOrdered(r)
    ensures multiset(r) == multiset(sorted) + multiset{g}
  {
    if sorted == [] || GroupBefore(g, sorted[0]) then
      GroupInFront(g, sorted);
      [g] + sorted
    else
      var tail := InsertGroup(g, sorted[1..]);
      GroupBehindHead(g, sorted, tail);
      [sorted[0]] + tail
  }

  lemma GroupInFront(g: Group, sorted: seq<Group>)
    requires GroupsOrdered(sorted)
    requires sorted == [] || GroupBefore(g, sorted[0])
    requires forall h :: h in sorted ==> h.key != g.key
    ensures GroupsOrdered([g] + sorted)
    ensures multiset([g] + sorted) == multiset(sorted) + multiset{g}
  {
    forall j | 0 <= j < |sorted| ensures GroupBefore(g, sorted[j]) {
      if j > 0 && |g.quotes| == |sorted[j].quotes| {
        LessEqTransitive(g.key, sorted[0].key, sorted[j].key);
      }
    }
  }

  /** Inserting behind the head: the head still comes first when `g` does not
      come before it. */
  lemma GroupBehindHead(g: Group, sorted: seq<Group>, tail: seq<Group>)
    requires GroupsOrdered(sorted) && sorted != [] && !GroupBefore(g, sorted[0])
    requires g.key != sorted[0].key
    requires GroupsOrdered(tail) && multiset(tail) == multiset(sorted[1..]) + multiset{g}
    ensures GroupsOrdered([sorted[0]] + tail)
    ensures multiset([sorted[0]] + tail) == multiset(sorted) + multiset{g}
  {
    LessEqTotal(g.key, sorted[0].key);
    assert sorted == [sorted[0]] + sorted[1..];
    forall j | 0 <= j < |tail| ensures GroupBefore(sorted[0], tail[j]) {
      assert tail[j] in multiset(tail);
      assert tail[j] == g || tail[j] in sorted[1..];
    }
  }

  /** The comparator sort of `groupQuotesBySource`: by size descending, then by key. */
  function SortGroups(groups: seq<Group>): (r: seq<Group>)
    requires DistinctKeys(groups)
    ensures GroupsOrdered(r)
    ensures multiset(r) == multiset(groups)
  {
    if groups == [] then []
    else
      var tail := SortGroups(groups[1..]);
      HeadKeyFresh(groups, tail);
      InsertGroup(groups[0], tail)
  }

  lemma HeadKeyFresh(groups: seq<Group>, tail: seq<Group>)
    requires groups != [] && DistinctKeys(groups)
    requires multiset(tail) == multiset(groups[1..])
    ensures forall h :: h in tail ==> h.key != groups[0].key
    ensures multiset(tail) + multiset{groups[0]} == multiset(groups)
  {
    forall h | h in tail ensures h.key != groups[0].key {
      assert h in multiset(groups[1..]);
      var i :| 0 <= i < |groups[1..]| && groups[1..][i] == h;
      assert groups[i + 1] == h;
    }
    assert groups == [groups[0]] + groups[1..];
  }

  lemma EntriesWithKeySnoc(s: seq<Entry>, e: Entry, parse: string -> Option<string>, key: string)
    ensures EntriesWithKey(s + [e], parse, key)
         == EntriesWithKey(s, parse, key) + (if SourceKey(parse, e.quote.url) == key then [e] else [])
  {
    assert (s + [e])[..|s|] == s;
  }

  lemma EntriesWithKeyAbsent(s: seq<Entry>, parse: string -> Option<string>, key: string)
    requires forall j :: 0 <= j < |s| ==> SourceKey(parse, s[j].quote.url) != key
    ensures EntriesWithKey(s, parse, key) == []
  {
  }

  /** The `groups` object of `groupQuotesBySource` after the entries `s`:
      each key met so far with its entries in order. */
  function GroupsOf(s: seq<Entry>, parse: string -> Option<string>): map<string, seq<Entry>> {
    if s == [] then map[]
    else
      var groups := GroupsOf(s[..|s| - 1], parse);
      var e := s[|s| - 1];
      var key := SourceKey(parse, e.quote.url);
      var group := if key in groups then groups[key] else [];
      groups[key := group + [e]]
  }

  /** The keys of `GroupsOf(s, parse)` in insertion order. */
  function KeyOrder(s: seq<Entry>, parse: string -> Option<string>): (keys: seq<string>)
    ensures forall k :: k in keys <==> k in GroupsOf(s, parse)
    ensures forall a, b :: 0 <= a < b < |keys| ==> keys[a] != keys[b]
  {
    if s == [] then []
    else
      var keys := KeyOrder(s[..|s| - 1], parse);
      var key := SourceKey(parse, s[|s| - 1].quote.url);
      if key in keys then keys else keys + [key]
  }

  /** A key has a group exactly when some entry has that key, and its group
      holds exactly those entries, in order. */
  lemma {:induction false} GroupsOfKey(s: seq<Entry>, parse: string -> Option<string>, k: string)
    ensures k in GroupsOf(s, parse) <==> EntriesWithKey(s, parse, k) != []
    ensures k in GroupsOf(s, parse) ==> GroupsOf(s, parse)[k] == EntriesWithKey(s, parse, k)
  {
    if s != [] {
      var init := s[..|s| - 1];
      GroupsOfKey(init, parse, k);
    }
  }

  /** The first pass of `groupQuotesBySource`: the `groups` object, as a map
      and the insertion order of its keys. */
  method CollectBySource(quotes: seq<Entry>, parse: string -> Option<string>)
    returns (byKey: map<string, seq<Entry>>, order: seq<string>)
    ensures byKey == GroupsOf(quotes, parse) && order == KeyOrder(quotes, parse)
  {
    byKey := map[];
    order := [];
    var i := 0;
    while i < |quotes|
      invariant 0 <= i <= |quotes|
      invariant byKey == GroupsOf(quotes[..i], parse) && order == KeyOrder(quotes[..i], parse)
    {
      var e := quotes[i];
      var key := SourceKey(parse, e.quote.url);
      ghost var prefix := quotes[..i + 1];
      assert prefix[..i] == quotes[..i] && prefix[i] == e;
      assert key in byKey <==> key in order;
      var group := if key in byKey then byKey[key] else [];
      if key !in byKey {
        order := order + [key];
      }
      byKey := byKey[key := group + [e]];
      i := i + 1;
    }
    assert quotes[..i] == quotes;
  }

  /** `groupQuotesBySource`: one group per source key holding that key's
      entries in their order, every entry in the group of its key, the groups
      by size descending and then by key. */
  method GroupBySource(quotes: seq<Entry>, parse: string -> Option<string>) returns (groups: seq<Group>)
    ensures forall i :: 0 <= i < |groups| ==>
              groups[i].quotes == EntriesWithKey(quotes, parse, groups[i].key) && groups[i].quotes != []
    ensures forall e :: e in quotes ==> exists i :: 0 <= i < |groups| && groups[i].key == SourceKey(parse, e.quote.url)
    ensures DistinctKeys(groups)
    ensures GroupsOrdered(groups)
  {
    var byKey, order := CollectBySource(quotes, parse);
    var entries := seq(|order|, j requires 0 <= j < |order| => Group(order[j], byKey[order[j]]));
    groups := SortGroups(entries);
    GroupsFromMap(quotes, parse, byKey, order, entries, groups);
  }

  lemma GroupsFromMap(quotes: seq<Entry>, parse: string -> Option<string>, byKey: map<string, seq<Entry>>,
                      order: seq<string>, entries: seq<Group>, groups: seq<Group>)
    requires byKey == GroupsOf(quotes, parse) && order == KeyOrder(quotes, parse)
    requires |entries| == |order| && forall j :: 0 <= j < |order| ==> entries[j] == Group(order[j], byKey[order[j]])
    requires multiset(groups) == multiset(entries) && GroupsOrdered(groups)
    ensures forall i :: 0 <= i < |groups| ==>
              groups[i].quotes == EntriesWithKey(quotes, parse, groups[i].key) && groups[i].quotes != []
    ensures forall e :: e in quotes ==> exists i :: 0 <= i < |groups| && groups[i].key == SourceKey(parse, e.quote.url)
    ensures DistinctKeys(groups)
  {
    forall i | 0 <= i < |groups| ensures groups[i].key in byKey && groups[i] == Group(groups[i].key, byKey[groups[i].key]) {
      assert groups[i] in multiset(entries);
    }
    forall i | 0 <= i < |groups|
      ensures groups[i].quotes == EntriesWithKey(quotes, parse, groups[i].key) && groups[i].quotes != []
    {
      GroupsOfKey(quotes, parse, groups[i].key);
    }
    GroupsCoverQuotes(quotes, parse, byKey, order, entries, groups);
  }

  /** Every entry's source key is the key of one of the sorted groups. */
  lemma GroupsCoverQuotes(quotes: seq<Entry>, parse: string -> Option<string>, byKey: map<string, seq<Entry>>,
                          order: seq<string>, entries: seq<Group>, groups: seq<Group>)
    requires byKey == GroupsOf(quotes, parse) && order == KeyOrder(quotes, parse)
    requires |entries| == |order| && forall j :: 0 <= j < |order| ==> entries[j] == Group(order[j], byKey[order[j]])
    requires multiset(groups) == multiset(entries)
    ensures forall e :: e in quotes ==> exists i :: 0 <= i < |groups| && groups[i].key == SourceKey(parse, e.quote.url)
  {
    forall e | e in quotes ensures exists i :: 0 <= i < |groups| && groups[i].key == SourceKey(parse, e.quote.url) {
      var k := SourceKey(parse, e.quote.url);
      GroupsOfKey(quotes, parse, k);
      assert e in EntriesWithKey(quotes, parse, k);
      var a :| 0 <= a < |order| && order[a] == k;
      assert entries[a] in multiset(groups);
      var b :| 0 <= b < |groups| && groups[b] == entries[a];
    }
  }

  // ---------------------------------------------------------------------------
  // Markdown export of one file, grouped by source page

  /** The quotes of a file whose URL has source key `key`, in their order. */
  function QuotesWithKey(quotes: seq<Quote>, parse: string -> Option<string>, key: string): (r: seq<Quote>)
    ensures forall q :: q in r <==> q in quotes && SourceKey(parse, q.url) == key
  {
    if quotes == [] then []
    else
      var last := quotes[|quotes| - 1];
      assert quotes == quotes[..|quotes| - 1] + [last];
      QuotesWithKey(quotes[..|quotes| - 1], parse, key) + (if SourceKey(parse, last.url) == key then [last] else [])
  }

  lemma QuotesWithKeySnoc(s: seq<Quote>, q: Quote, parse: string -> Option<string>, key: string)
    ensures QuotesWithKey(s + [q], parse, key)
         == QuotesWithKey(s, parse, key) + (if SourceKey(parse, q.url) == key then [q] else [])
  {
    assert (s + [q])[..|s|] == s;
  }

  lemma QuotesWithKeyAbsent(s: seq<Quote>, parse: string -> Option<string>, key: string)
    requires forall q :: q in s ==> SourceKey(parse, q.url) != key
    ensures QuotesWithKey(s, parse, key) == []
  {
  }

  /** The source keys of a file's quotes in order of first appearance (the
      insertion order of the `groupedBySource` object). */
  function FirstSeenKeys(quotes: seq<Quote>, parse: string -> Option<string>): (keys: seq<string>)
    ensures forall k :: k in keys <==> QuotesWithKey(quotes, parse, k) != []
    ensures forall i, j :: 0 <= i < j < |keys| ==> keys[i] != keys[j]
  {
    if quotes == [] then []
    else
      var last := quotes[|quotes| - 1];
      var init := quotes[..|quotes| - 1];
      var seen := FirstSeenKeys(init, parse);
      var key := SourceKey(parse, last.url);
      assert quotes == init + [last];
      if key in seen then seen else seen + [key]
  }

  /** The heading of one source section: its title (or "Source") and a link. */
  function SectionHeading(title: string, url: string): string {
    "## " + (if title == "" then "Source" else title) + "\n" + "[Source](" + url + ")\n\n"
  }

  /** One block quote per quote, in order. */
  function Blocks(quotes: seq<Quote>): string {
    if quotes == [] then "" else Blocks(quotes[..|quotes| - 1]) + BlockQuote(quotes[|quotes| - 1].text)
  }

  /** The section of source `key`: titled and linked after its first quote. */
  function Section(quotes: seq<Quote>, parse: string -> Option<string>, key: string): string {
    var group := QuotesWithKey(quotes, parse, key);
    if group == [] then "" else SectionHeading(group[0].title, group[0].url) + Blocks(group)
  }

  function Sections(quotes: seq<Quote>, parse: string -> Option<string>, keys: seq<string>): string {
    if keys == [] then ""
    else Sections(quotes, parse, keys[..|keys| - 1]) + Section(quotes, parse, keys[|keys| - 1])
  }

  /** The exported markdown of a file: its name as title, then one section per
      source page in order of first appearance. */
  function GroupedMarkdown(fileName: string, quotes: seq<Quote>, parse: string -> Option<string>): string {
    "# " + fileName + "\n\n" + Sections(quotes, parse, FirstSeenKeys(quotes, parse))
  }

  /** The number of quotes in the sections `keys`. */
  function SectionSizes(quotes: seq<Quote>, parse: string -> Option<string>, keys: seq<string>): nat {
    if keys == [] then 0
    else SectionSizes(quotes, parse, keys[..|keys| - 1]) + |QuotesWithKey(quotes, parse, keys[|keys| - 1])|
  }

  lemma {:induction false} SectionSizesSnoc(init: seq<Quote>, last: Quote, parse: string -> Option<string>, keys: seq<string>)
    requires forall i, j :: 0 <= i < j < |keys| ==> keys[i] != keys[j]
    ensures SectionSizes(init + [last], parse, keys)
         == SectionSizes(init, parse, keys) + (if SourceKey(parse, last.url) in keys then 1 else 0)
  {
    var quotes := init + [last];
    assert quotes[..|quotes| - 1] == init;
    if keys != [] {
      var k := keys[|keys| - 1];
      var ks := keys[..|keys| - 1];
      assert keys == ks + [k];
      SectionSizesSnoc(init, last, parse, ks);
      assert k !in ks;
    }
  }

  lemma {:induction false} SectionSizesNoKey(quotes: seq<Quote>, parse: string -> Option<string>, keys: seq<string>, key: string)
    requires key !in keys
    ensures SectionSizes(quotes, parse, keys + [key]) == SectionSizes(quotes, parse, keys) + |QuotesWithKey(quotes, parse, key)|
  {
    assert (keys + [key])[..|keys|] == keys;
  }

  /** Every quote of the file lands in exactly one section: the sections
      hold as many quotes, together, as the file. */
  lemma {:induction false} SectionsCoverEveryQuote(quotes: seq<Quote>, parse: string -> Option<string>)
    ensures SectionSizes(quotes, parse, FirstSeenKeys(quotes, parse)) == |quotes|
  {
    if quotes != [] {
      var init := quotes[..|quotes| - 1];
      var last := quotes[|quotes| - 1];
      var seen := FirstSeenKeys(init, parse);
      var key := SourceKey(parse, last.url);
      assert quotes == init + [last];
      SectionsCoverEveryQuote(init, parse);
      if key in seen {
        SectionSizesSnoc(init, last, parse, seen);
      } else {
        SectionSizesNoKey(quotes, parse, seen, key);
        SectionSizesSnoc(init, last, parse, seen);
        QuotesWithKeyAbsent(init, parse, key);
        QuotesWithKeySnoc(init, last, parse, key);
      }
    }
  }

  /** One `groupedBySource` entry: the first quote's title and URL, and the quotes. */
  datatype SourceGroup = SourceGroup(title: string, url: string, quotes: seq<Quote>)

  /** The `groupedBySource` object after the quotes `s`: each key met so far
      with the title and URL of its first quote and its quotes in order. */
  function SourceGroupsOf(s: seq<Quote>, parse: string -> Option<string>): map<string, SourceGroup> {
    if s == [] then map[]
    else
      var groups := SourceGroupsOf(s[..|s| - 1], parse);
      var q := s[|s| - 1];
      var key := SourceKey(parse, q.url);
      var group := if key in groups then groups[key] else SourceGroup(q.title, q.url, []);
      groups[key := group.(quotes := group.quotes + [q])]
  }

  /** A key has a group exactly when some quote has that key; the group holds
      exactly those quotes and carries the first one's title and URL. */
  lemma {:induction false} SourceGroupsOfKey(s: seq<Quote>, parse: string -> Option<string>, k: string)
    ensures k in SourceGroupsOf(s, parse) <==> k in FirstSeenKeys(s, parse)
    ensures k in SourceGroupsOf(s, parse) ==>
              var g := SourceGroupsOf(s, parse)[k];
              g.quotes == QuotesWithKey(s, parse, k) && g.quotes != []
              && g.title == g.quotes[0].title && g.url == g.quotes[0].url
  {
    if s != [] {
      var init := s[..|s| - 1];
      var q := s[|s| - 1];
      assert s == init + [q];
      SourceGroupsOfKey(init, parse, k);
      FirstSeenKeysSnoc(init, q, parse);
      QuotesWithKeySnoc(init, q, parse, k);
      if k !in SourceGroupsOf(init, parse) {
        QuotesWithKeyAbsent(init, parse, k);
      }
    }
  }

  lemma FirstSeenKeysSnoc(s: seq<Quote>, q: Quote, parse: string -> Option<string>)
    ensures FirstSeenKeys(s + [q], parse)
         == var seen := FirstSeenKeys(s, parse);
            if SourceKey(parse, q.url) in seen then seen else seen + [SourceKey(parse, q.url)]
  {
    assert (s + [q])[..|s|] == s;
  }

  /** The first pass of the viewer's `generateMarkdown`: the `groupedBySource`
      object, as a map and the insertion order of its keys. */
  method CollectSourceGroups(quotes: seq<Quote>, parse: string -> Option<string>)
    returns (groups: map<string, SourceGroup>, order: seq<string>)
    ensures groups == SourceGroupsOf(quotes, parse) && order == FirstSeenKeys(quotes, parse)
  {
    groups := map[];
    order := [];
    var i := 0;
    while i < |quotes|
      invariant 0 <= i <= |quotes|
      invariant groups == SourceGroupsOf(quotes[..i], parse) && order == FirstSeenKeys(quotes[..i], parse)
    {
      var q := quotes[i];
      var key := SourceKey(parse, q.url);
      CollectStep(quotes, parse, i);
      var group := if key in groups then groups[key] else SourceGroup(q.title, q.url, []);
      if key !in groups {
        order := order + [key];
      }
      groups := groups[key := group.(quotes := group.quotes + [q])];
      i := i + 1;
    }
    assert quotes[..i] == quotes;
  }

  /** One more quote: its key's group grows by it, and a new key is added
      at the end of the order. */
  lemma CollectStep(quotes: seq<Quote>, parse: string -> Option<string>, i: nat)
    requires i < |quotes|
    ensures var groups := SourceGroupsOf(quotes[..i], parse);
            var key := SourceKey(parse, quotes[i].url);
            var group := if key in groups then groups[key] else SourceGroup(quotes[i].title, quotes[i].url, []);
            && SourceGroupsOf(quotes[..i + 1], parse) == groups[key := group.(quotes := group.quotes + [quotes[i]])]
            && FirstSeenKeys(quotes[..i + 1], parse)
               == if key in groups then FirstSeenKeys(quotes[..i], parse) else FirstSeenKeys(quotes[..i], parse) + [key]
  {
    assert quotes[..i + 1][..i] == quotes[..i];
    SourceGroupsOfKey(quotes[..i], parse, SourceKey(parse, quotes[i].url));
  }

  lemma SectionsStep(quotes: seq<Quote>, parse: string -> Option<string>, order: seq<string>, j: nat)
    requires j < |order|
    ensures Sections(quotes, parse, order[..j + 1]) == Sections(quotes, parse, order[..j]) + Section(quotes, parse, order[j])
  {
    assert order[..j + 1][..j] == order[..j];
  }

  lemma SectionOfGroup(quotes: seq<Quote>, parse: string -> Option<string>, key: string)
    requires key in FirstSeenKeys(quotes, parse)
    ensures key in SourceGroupsOf(quotes, parse)
    ensures var g := SourceGroupsOf(quotes, parse)[key];
            Section(quotes, parse, key) == SectionHeading(g.title, g.url) + Blocks(g.quotes)
  {
    SourceGroupsOfKey(quotes, parse, key);
  }

  /** Write one group: its heading, then one block quote per quote. */
  method WriteSection(md: string, group: SourceGroup) returns (out: string)
    ensures out == md + (SectionHeading(group.title, group.url) + Blocks(group.quotes))
  {
    var heading := md + SectionHeading(group.title, group.url);
    out := heading;
    var m := 0;
    while m < |group.quotes|
      invariant 0 <= m <= |group.quotes|
      invariant out == heading + Blocks(group.quotes[..m])
    {
      assert group.quotes[..m + 1][..m] == group.quotes[..m];
      Associative(heading, Blocks(group.quotes[..m]), BlockQuote(group.quotes[m].text));
      out := out + BlockQuote(group.quotes[m].text);
      m := m + 1;
    }
    assert group.quotes[..m] == group.quotes;
    Associative(md, SectionHeading(group.title, group.url), Blocks(group.quotes));
  }

  /** `generateMarkdown` of the viewer: build the source groups in one pass,
      then write each group's heading and block quotes. */
  method GenerateMarkdown(fileName: string, file: File, parse: string -> Option<string>) returns (md: string)
    ensures md == GroupedMarkdown(fileName, file.quotes, parse)
  {
    var quotes := file.quotes;
    var groups, order := CollectSourceGroups(quotes, parse);
    var header := "# " + fileName + "\n\n";
    md := header;
    var j := 0;
    while j < |order|
      invariant 0 <= j <= |order|
      invariant md == header + Sections(quotes, parse, order[..j])
    {
      var key := order[j];
      SectionOfGroup(quotes, parse, key);
      SectionsStep(quotes, parse, order, j);
      ghost var before := Sections(quotes, parse, order[..j]);
      md := WriteSection(md, groups[key]);
      Associative(header, before, Section(quotes, parse, key));
      j := j + 1;
    }
    assert order[..j] == order;
  }

  // ---------------------------------------------------------------------------
  // Batch deletion

  /** `allQuotes.find(q => q.id === id)`: the first entry with that id. */
  function FindById(entries: seq<Entry>, id: string): (r: Option<Entry>)
    ensures r.None? <==> forall e :: e in entries ==> e.quote.id != id
    ensures r.Some? ==> r.value in entries && r.value.quote.id == id
  {
    if entries == [] then None
    else if entries[0].quote.id == id then Some(entries[0])
    else FindById(entries[1..], id)
  }

  /** What `find` returns is the entry at the first position holding that id. */
  lemma {:induction false} FindByIdFirst(entries: seq<Entry>, id: string)
    requires FindById(entries, id).Some?
    ensures exists i :: FirstWithId(entries, id, i) && entries[i] == FindById(entries, id).value
  {
    if entries[0].quote.id == id {
      assert FirstWithId(entries, id, 0);
    } else {
      FindByIdFirst(entries[1..], id);
      var i :| FirstWithId(entries[1..], id, i) && entries[1..][i] == FindById(entries, id).value;
      assert FirstWithId(entries, id, i + 1);
    }
  }

  /** Position `i` holds the first entry with id `id`. */
  predicate FirstWithId(entries: seq<Entry>, id: string, i: int) {
    0 <= i < |entries| && entries[i].quote.id == id && forall j :: 0 <= j < i ==> entries[j].quote.id != id
  }

  /** The quotes whose id is not in `ids`, in order. */
  function WithoutIds(quotes: seq<Quote>, ids: set<string>): (r: seq<Quote>)
    ensures Subseq(r, quotes)
    ensures forall q :: q in r <==> q in quotes && q.id !in ids
  {
    if quotes == [] then []
    else if quotes[0].id !in ids then [quotes[0]] + WithoutIds(quotes[1..], ids)
    else WithoutIds(quotes[1..], ids)
  }

  /** Every quote whose id is not in `ids` is kept as often as it occurs; the others are dropped. */
  lemma {:induction false} WithoutIdsCounts(quotes: seq<Quote>, ids: set<string>)
    ensures forall x :: multiset(WithoutIds(quotes, ids))[x] == if x.id !in ids then multiset(quotes)[x] else 0
  {
    if quotes != [] {
      WithoutIdsCounts(quotes[1..], ids);
      assert quotes == [quotes[0]] + quotes[1..];
    }
  }

  lemma {:induction false} WithoutIdsAdd(quotes: seq<Quote>, ids: set<string>, id: string)
    ensures WithoutId(WithoutIds(quotes, ids), id) == WithoutIds(quotes, ids + {id})
  {
    if quotes != [] {
      WithoutIdsAdd(quotes[1..], ids, id);
    }
  }

  lemma {:induction false} WithoutNoIds(quotes: seq<Quote>)
    ensures WithoutIds(quotes, {}) == quotes
  {
    if quotes != [] {
      WithoutNoIds(quotes[1..]);
    }
  }

  /** Where the batch delete looks each selected id up: the file of the
      first entry with that id, for the ids some entry has. */
  function Locate(all: seq<Entry>, ids: set<string>): map<string, string> {
    map id | id in ids && FindById(all, id).Some? :: FindById(all, id).value.fileName
  }

  /** The located ids that point at file `name`. */
  function IdsIn(located: map<string, string>, name: string): set<string> {
    set id | id in located && located[id] == name
  }

  /** Each file loses the quotes whose ids are located in it; a file left
      empty is dropped. */
  function Prune(files: Files, located: map<string, string>): (r: Files)
    ensures WellFormed(files) ==> WellFormed(r)
  {
    map k | k in files && WithoutIds(files[k].quotes, IdsIn(located, k)) != [] ::
      files[k].(quotes := WithoutIds(files[k].quotes, IdsIn(located, k)))
  }

  /** The store after the batch delete of `ids`, located through the list `all`. */
  function RemoveSelected(files: Files, all: seq<Entry>, ids: set<string>): (r: Files)
    ensures WellFormed(files) ==> WellFormed(r)
  {
    Prune(files, Locate(all, ids))
  }

  /** A stored quote survives the batch delete exactly when it was not both
      selected and located (by the first entry with its id) in its own file;
      each surviving file keeps the order of what is left of it. */
  lemma BatchDeleteSurvivors(files: Files, all: seq<Entry>, ids: set<string>, k: string, q: Quote)
    requires k in files && q in files[k].quotes
    ensures var r := RemoveSelected(files, all, ids);
            (k in r && q in r[k].quotes)
              <==> !(q.id in ids && FindById(all, q.id).Some? && FindById(all, q.id).value.fileName == k)
    ensures var r := RemoveSelected(files, all, ids);
            k in r ==> Subseq(r[k].quotes, files[k].quotes)
  {
    var located := Locate(all, ids);
    var kept := WithoutIds(files[k].quotes, IdsIn(located, k));
    if !(q.id in ids && FindById(all, q.id).Some? && FindById(all, q.id).value.fileName == k) {
      assert q.id !in IdsIn(located, k);
      assert q in kept;
    }
  }

  /** With nothing selected the batch delete changes nothing. */
  lemma RemoveNothing(files: Files, all: seq<Entry>)
    requires WellFormed(files)
    ensures RemoveSelected(files, all, {}) == files
  {
    assert Locate(all, {}) == map[];
    forall k | k in files ensures WithoutIds(files[k].quotes, IdsIn(map[], k)) == files[k].quotes {
      assert IdsIn(map[], k) == {};
      WithoutNoIds(files[k].quotes);
    }
  }

  lemma LocateAdd(all: seq<Entry>, done: set<string>, id: string)
    ensures FindById(all, id).None? ==> Locate(all, done + {id}) == Locate(all, done)
    ensures FindById(all, id).Some? ==>
              Locate(all, done + {id}) == Locate(all, done)[id := FindById(all, id).value.fileName]
  {
  }

  lemma PruneStepAt(files: Files, located: map<string, string>, id: string, fn: string, k: string)
    requires id !in located
    ensures var lhs := RemoveQuote(Prune(files, located), fn, id);
            var r1 := Prune(files, located[id := fn]);
            (k in lhs <==> k in r1) && (k in lhs ==> lhs[k] == r1[k])
  {
    if k == fn {
      assert IdsIn(located[id := fn], k) == IdsIn(located, k) + {id};
      if k in files {
        WithoutIdsAdd(files[k].quotes, IdsIn(located, k), id);
      }
    } else {
      assert IdsIn(located[id := fn], k) == IdsIn(located, k);
    }
  }

  /** One turn of the batch-delete loop: deleting one more located id from
      its file is the closed form with that id added. */
  lemma PruneStep(files: Files, located: map<string, string>, id: string, fn: string)
    requires id !in located
    ensures RemoveQuote(Prune(files, located), fn, id) == Prune(files, located[id := fn])
  {
    forall k {
      PruneStepAt(files, located, id, fn, k);
    }
  }

  // ---------------------------------------------------------------------------
  // The viewer page and its handlers

  class Viewer {
    const storage: LocalStorage
    /** The store as last read or written by this page. */
    var files: Files
    /** Every quote, tagged with its file, newest first. */
    var allQuotes: seq<Entry>
    /** The quotes the search box and the file filter let through. */
    var filteredQuotes: seq<Entry>
    /** The ids of the quotes whose checkbox is ticked. */
    var selectedQuotes: set<string>
    /** The search box's text. */
    var searchInput: string
    /** The file filter's value; "" is "All files". */
    var fileFilter: string

    /** The page's copy of the store is the stored one, and well formed. */
    ghost predicate Valid()
      reads this, storage
    {
      files == storage.files && WellFormed(files)
    }

    /** The flat list was rebuilt from `files`, the file filter was reset to
        "All files" (rebuilding its options does that) and the filters were
        applied again. */
    ghost predicate Refreshed()
      reads this
    {
      && (exists keys :: Enumerates(keys, files) && allQuotes == SortNewestFirst(Flatten(files, keys)))
      && fileFilter == ""
      && filteredQuotes == FilterQuotes(allQuotes, searchInput, fileFilter)
    }

    constructor(storage: LocalStorage)
      ensures this.storage == storage
      ensures files == map[] && allQuotes == [] && filteredQuotes == [] && selectedQuotes == {}
      ensures searchInput == "" && fileFilter == ""
    {
      this.storage := storage;
      files := map[];
      allQuotes := [];
      filteredQuotes := [];
      selectedQuotes := {};
      searchInput := "";
      fileFilter := "";
    }

    /** `loadFiles`: read the store, flatten it and sort it newest first. */
    method LoadFiles()
      requires WellFormed(storage.files)
      modifies this`files, this`allQuotes, this`filteredQuotes
      ensures Valid()
      ensures exists keys :: Enumerates(keys, files) && allQuotes == SortNewestFirst(Flatten(files, keys))
      ensures filteredQuotes == allQuotes
    {
      files := storage.files;
      var all := FlattenQuotes(files);
      allQuotes := SortNewestFirst(all);
      filteredQuotes := allQuotes;
    }

    /** `init`: load the store and show every quote. */
    method Init()
      requires WellFormed(storage.files)
      modifies this`files, this`allQuotes, this`filteredQuotes, this`fileFilter
      ensures Valid()
      ensures exists keys :: Enumerates(keys, files) && allQuotes == SortNewestFirst(Flatten(files, keys))
      ensures filteredQuotes == allQuotes && fileFilter == ""
    {
      LoadFiles();
      fileFilter := "";
    }

    /** The refresh that follows a deletion: `loadFiles`, then
        `populateFileFilter` (which resets the filter to "All files"), then
        `applyFilters`. */
    method Refresh()
      requires WellFormed(storage.files)
      modifies this`files, this`allQuotes, this`filteredQuotes, this`fileFilter
      ensures Valid() && Refreshed()
    {
      LoadFiles();
      fileFilter := "";
      ApplyFilters();
    }

    /** `applyFilters` */
    method ApplyFilters()
      modifies this`filteredQuotes
      ensures filteredQuotes == FilterQuotes(allQuotes, searchInput, fileFilter)
    {
      filteredQuotes := FilterQuotes(allQuotes, searchInput, fileFilter);
    }

    /** `handleSearch`: the search box changed. */
    method OnSearch(value: string)
      modifies this`searchInput, this`filteredQuotes
      ensures searchInput == value
      ensures filteredQuotes == FilterQuotes(allQuotes, value, fileFilter)
    {
      searchInput := value;
      ApplyFilters();
    }

    /** `handleFilter`: the file filter changed. */
    method OnFilter(value: string)
      modifies this`fileFilter, this`filteredQuotes
      ensures fileFilter == value
      ensures filteredQuotes == FilterQuotes(allQuotes, searchInput, value)
    {
      fileFilter := value;
      ApplyFilters();
    }

    /** `handleCheckbox`: tick or untick one quote. */
    method HandleCheckbox(id: string, checked: bool)
      modifies this`selectedQuotes
      ensures checked ==> selectedQuotes == old(selectedQuotes) + {id}
      ensures !checked ==> selectedQuotes == old(selectedQuotes) - {id}
    {
      if checked {
        selectedQuotes := selectedQuotes + {id};
      } else {
        selectedQuotes := selectedQuotes - {id};
      }
    }

    /** `deleteQuote`: drop the quotes with that id from the file, drop the
        file when it is left empty, write the store back and, when asked,
        refresh the page; a missing file is left alone. */
    method DeleteQuote(fileName: string, id: string, refresh: bool)
      requires Valid()
      modifies this`files, this`allQuotes, this`filteredQuotes, this`fileFilter, storage
      ensures Valid()
      ensures files == RemoveQuote(old(files), fileName, id)
      ensures fileName !in old(files) ==> storage.files == old(storage.files)
      ensures refresh && fileName in old(files) ==> Refreshed()
      ensures !(refresh && fileName in old(files)) ==>
                allQuotes == old(allQuotes) && filteredQuotes == old(filteredQuotes) && fileFilter == old(fileFilter)
    {
      if fileName in files {
        files := files[fileName := files[fileName].(quotes := WithoutId(files[fileName].quotes, id))];
        if |files[fileName].quotes| == 0 {
          files := files - {fileName};
        }
        assert files == RemoveQuote(old(files), fileName, id);
        storage.files := files;
        if refresh {
          Refresh();
        }
      }
    }

    /** The confirmed batch delete: every ticked quote is located through
        the flat list and deleted from its file without refreshing, then the
        selection is cleared and the page refreshed once. */
    method BatchDelete()
      requires Valid()
      modifies this`files, this`allQuotes, this`filteredQuotes, this`fileFilter, this`selectedQuotes, storage
      ensures Valid() && Refreshed()
      ensures files == RemoveSelected(old(files), old(allQuotes), old(selectedQuotes))
      ensures selectedQuotes == {} && searchInput == old(searchInput)
    {
      RemoveNothing(files, allQuotes);
      var rest := selectedQuotes;
      ghost var done: set<string> := {};
      while rest != {}
        invariant Valid()
        invariant rest + done == old(selectedQuotes) && rest !! done
        invariant files == RemoveSelected(old(files), old(allQuotes), done)
        invariant allQuotes == old(allQuotes) && searchInput == old(searchInput)
        decreases rest
      {
        var id :| id in rest;
        var quote := FindById(allQuotes, id);
        LocateAdd(allQuotes, done, id);
        if quote.Some? {
          PruneStep(old(files), Locate(allQuotes, done), id, quote.value.fileName);
          DeleteQuote(quote.value.fileName, id, false);
        }
        rest := rest - {id};
        done := done + {id};
      }
      selectedQuotes := {};
      Refresh();
    }

    /** The confirmed "delete everything": nothing happens when there are no
        quotes; otherwise the store, the lists and the selection are emptied. */
    method DeleteAll()
      requires Valid()
      modifies this`files, this`allQuotes, this`filteredQuotes, this`fileFilter, this`selectedQuotes, storage
      ensures Valid()
      ensures old(allQuotes) == [] ==> unchanged(this) && unchanged(storage)
      ensures old(allQuotes) != [] ==>
                && storage.files == map[] && files == map[]
                && allQuotes == [] && filteredQuotes == [] && selectedQuotes == {} && fileFilter == ""
    {
      if |allQuotes| == 0 {
        return;
      }
      storage.files := map[];
      files := map[];
      allQuotes := [];
      filteredQuotes := [];
      selectedQuotes := {};
      fileFilter := "";
    }
  }
}
