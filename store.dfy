/** The quote store shared by the content script, the popup and the full-page
    viewer: a dictionary from file name to file, each file an ordered list of
    quotes, kept under the `files` key of the extension's local storage. */
module Store {
  import opened Text

  /** One saved selection. `savedAt` is the save time as a number. */
  datatype Quote = Quote(id: string, text: string, url: string, title: string, savedAt: int)

  /** A named collection of quotes in the order they were saved. */
  datatype File = File(name: string, createdAt: int, quotes: seq<Quote>)

  /** The stored document: file name to file. */
  type Files = map<string, File>

  /** A quote tagged with the name of the file that holds it (`{...quote, fileName}`). */
  datatype Entry = Entry(fileName: string, quote: Quote)

  datatype Option<T> = None | Some(value: T)

  /** The store invariant every surface keeps: each file sits under its own
      name and no file is left without quotes. */
  predicate WellFormed(files: Files) {
    forall k :: k in files ==> files[k].name == k && |files[k].quotes| > 0
  }

  /** `a` is an order-preserving subsequence of `b`. */
  ghost predicate Subseq<T>(a: seq<T>, b: seq<T>) {
    a == [] || (b != [] && ((a[0] == b[0] && Subseq(a[1..], b[1..])) || Subseq(a, b[1..])))
  }

  /** The chrome.storage.local area, reduced to its `files` key; an area that
      never held the key reads as the empty dictionary. */
  class LocalStorage {
    var files: Files

    constructor()
      ensures files == map[]
    {
      files := map[];
    }
  }

  /** The quotes of `name`, or none when there is no such file. */
  function QuotesOf(files: Files, name: string): seq<Quote> {
    if name in files then files[name].quotes else []
  }

  /** Append `q` to the file `name`, creating that file (stamped `createdAt`)
      when it does not exist yet. */
  function AppendQuote(files: Files, name: string, q: Quote, createdAt: int): (r: Files)
    ensures r.Keys == files.Keys + {name}
    ensures r[name].quotes == QuotesOf(files, name) + [q]
    ensures name in files ==> r[name].name == files[name].name && r[name].createdAt == files[name].createdAt
    ensures name !in files ==> r[name].name == name && r[name].createdAt == createdAt
    ensures forall k :: k in files && k != name ==> r[k] == files[k]
    ensures WellFormed(files) ==> WellFormed(r)
  {
    var file := if name in files then files[name] else File(name, createdAt, []);
    files[name := file.(quotes := file.quotes + [q])]
  }

  /** `quotes.filter(q => q.id !== id)` */
  function WithoutId(quotes: seq<Quote>, id: string): (r: seq<Quote>)
    ensures Subseq(r, quotes)
    ensures forall q :: q in r <==> q in quotes && q.id != id
    ensures |r| <= |quotes|
    ensures (forall q :: q in quotes ==> q.id != id) ==> r == quotes
  {
    if quotes == [] then []
    else if quotes[0].id != id then [quotes[0]] + WithoutId(quotes[1..], id)
    else WithoutId(quotes[1..], id)
  }

  /** Every quote with another id is kept as often as it occurs; those with the id are dropped. */
  lemma {:induction false} WithoutIdCounts(quotes: seq<Quote>, id: string)
    ensures forall x :: multiset(WithoutId(quotes, id))[x] == if x.id != id then multiset(quotes)[x] else 0
  {
    if quotes != [] {
      WithoutIdCounts(quotes[1..], id);
      assert quotes == [quotes[0]] + quotes[1..];
    }
  }

  /** Remove every quote with id `id` from the file `fileName`, and remove the
      file when that leaves it empty; a missing file is left alone. */
  function RemoveQuote(files: Files, fileName: string, id: string): (r: Files)
    ensures fileName !in files ==> r == files
    ensures forall k :: k != fileName ==> (k in r <==> k in files)
    ensures forall k :: k in r && k != fileName ==> r[k] == files[k]
    ensures fileName in files ==>
              (fileName in r <==> WithoutId(files[fileName].quotes, id) != [])
    ensures fileName in r ==>
              && fileName in files
              && r[fileName] == files[fileName].(quotes := WithoutId(files[fileName].quotes, id))
              && forall q :: q in r[fileName].quotes ==> q.id != id
    ensures WellFormed(files) ==> WellFormed(r)
  {
    if fileName in files then
      var rest := WithoutId(files[fileName].quotes, id);
      if rest == [] then files - {fileName}
      else files[fileName := files[fileName].(quotes := rest)]
    else files
  }

  /** Deleting the same quote twice is the same as deleting it once. */
  lemma RemoveQuoteIdempotent(files: Files, fileName: string, id: string)
    ensures RemoveQuote(RemoveQuote(files, fileName, id), fileName, id) == RemoveQuote(files, fileName, id)
  {
    var once := RemoveQuote(files, fileName, id);
    if fileName in once {
      var quotes := once[fileName].quotes;
      assert WithoutId(quotes, id) == quotes;
    }
  }

  /** Strictly ascending in the default sort order, hence without repeats. */
  predicate SortedNames(names: seq<string>) {
    forall i, j :: 0 <= i < j < |names| ==> LessEq(names[i], names[j]) && names[i] != names[j]
  }

  /** Put `x` into its place in an ascending list of names. */
  function InsertName(x: string, names: seq<string>): (r: seq<string>)
    requires SortedNames(names) && x !in names
    ensures SortedNames(r)
    ensures forall y :: y in r <==> y == x || y in names
    ensures |r| == |names| + 1
  {
    if names == [] then [x]
    else if LessEq(x, names[0]) then
      forall j | 0 <= j < |names| ensures LessEq(x, names[j]) {
        if j > 0 { LessEqTransitive(x, names[0], names[j]); }
      }
      [x] + names
    else
      LessEqTotal(x, names[0]);
      var tail := InsertName(x, names[1..]);
      forall j | 0 <= j < |tail| ensures LessEq(names[0], tail[j]) && names[0] != tail[j] {
        assert tail[j] == x || tail[j] in names[1..];
      }
      [names[0]] + tail
  }

  /** `Object.keys(files).sort()`: the file names, each once, in ascending order. */
  method ListFileNames(files: Files) returns (names: seq<string>)
    ensures SortedNames(names)
    ensures forall k :: k in names <==> k in files
    ensures |names| == |files|
  {
    names := [];
    var rest := files.Keys;
    while rest != {}
      invariant SortedNames(names)
      invariant forall k :: k in names <==> k in files && k !in rest
      invariant rest <= files.Keys
      invariant |names| + |rest| == |files|
      decreases rest
    {
      var k :| k in rest;
      names := InsertName(k, names);
      rest := rest - {k};
    }
  }
}
