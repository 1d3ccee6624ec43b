/** The toolbar popup: the files in name order with their quote counts and
    previews, file selection, deletion of a file, a quote, the selected files
    or everything, and export of a file as flat markdown. */
module Popup {
  import opened Text
  import opened Store

  // ---------------------------------------------------------------------------
  // Previews

  /** `truncate(text, maxLength)`: the text itself when it fits, otherwise
      its first `maxLength` characters followed by "...". */
  function Truncate(text: string, maxLength: nat): (r: string)
    ensures |text| <= maxLength ==> r == text
    ensures |text| > maxLength ==>
              |r| == maxLength + 3 && r[..maxLength] == text[..maxLength] && r[maxLength..] == "..."
    ensures |r| <= maxLength + 3
  {
    if |text| <= maxLength then text else text[..maxLength] + "..."
  }

  /** Truncating a preview again leaves it as it is. */
  lemma TruncateIdempotent(text: string, maxLength: nat)
    ensures Truncate(Truncate(text, maxLength), maxLength) == Truncate(text, maxLength)
  {
    var once := Truncate(text, maxLength);
    if |text| > maxLength {
      assert once == once[..maxLength] + once[maxLength..];
    }
  }

  /** One quote as the expanded file card lists it. */
  datatype QuoteLine = QuoteLine(id: string, text: string, source: string, url: string)

  /** One file as the list shows it. */
  datatype FileCard = FileCard(name: string, quoteCount: nat, selected: bool, quotes: seq<QuoteLine>)

  /** What `renderFiles` shows: the empty state, or one card per file. */
  datatype FileListView = EmptyState | FileList(cards: seq<FileCard>)

  /** A quote's preview: at most 150 characters of its text, and its title
      (or, without one, its URL) cut to 40 characters. */
  function Line(q: Quote): (line: QuoteLine)
    ensures |line.text| <= 153 && |line.source| <= 43
    ensures line.id == q.id && line.url == q.url
    ensures line.text == Truncate(q.text, 150)
    ensures q.title != "" ==> line.source == Truncate(q.title, 40)
    ensures q.title == "" ==> line.source == Truncate(q.url, 40)
  {
    QuoteLine(q.id, Truncate(q.text, 150), Truncate(if q.title == "" then q.url else q.title, 40), q.url)
  }

  /** The card of file `name`: its quote count, whether its box is ticked and
      a preview of each quote in order. */
  function Card(name: string, file: File, selectedFiles: set<string>): (card: FileCard)
    ensures card.name == name && card.quoteCount == |file.quotes| && |card.quotes| == |file.quotes|
    ensures card.selected <==> name in selectedFiles
    ensures forall j :: 0 <= j < |file.quotes| ==> card.quotes[j] == Line(file.quotes[j])
  {
    FileCard(name, |file.quotes|, name in selectedFiles, seq(|file.quotes|, j requires 0 <= j < |file.quotes| => Line(file.quotes[j])))
  }

  /** One card per name, in the order of `names`. */
  function Cards(names: seq<string>, files: Files, selectedFiles: set<string>): (cards: seq<FileCard>)
    requires forall k :: k in names ==> k in files
    ensures |cards| == |names|
    ensures forall i :: 0 <= i < |names| ==> cards[i].name == names[i] && cards[i] == Card(names[i], files[names[i]], selectedFiles)
  {
    seq(|names|, i requires 0 <= i < |names| => Card(names[i], files[names[i]], selectedFiles))
  }

  /** `renderFiles`: the empty state exactly when there is no file;
      otherwise one card per file, in ascending name order. */
  method RenderFiles(files: Files, selectedFiles: set<string>) returns (view: FileListView)
    ensures view.EmptyState? <==> |files| == 0
    ensures view.FileList? ==>
              && |view.cards| == |files|
              && (forall i, j :: 0 <= i < j < |view.cards| ==>
                    LessEq(view.cards[i].name, view.cards[j].name) && view.cards[i].name != view.cards[j].name)
              && (forall i :: 0 <= i < |view.cards| ==>
                    view.cards[i].name in files && view.cards[i] == Card(view.cards[i].name, files[view.cards[i].name], selectedFiles))
              && (forall k :: k in files ==> exists i :: 0 <= i < |view.cards| && view.cards[i].name == k)
  {
    var names := ListFileNames(files);
    if |names| == 0 {
      return EmptyState;
    }
    var cards := Cards(names, files, selectedFiles);
    forall k | k in files ensures exists i :: 0 <= i < |cards| && cards[i].name == k {
      var i :| 0 <= i < |names| && names[i] == k;
      assert cards[i].name == k;
    }
    view := FileList(cards);
  }

  // ---------------------------------------------------------------------------
  // Flat markdown export

  /** The export of one quote: a rule, the block quote, its source link
      (titled "Link" when it has no title) and its long date. */
  function QuoteSection(q: Quote, formatDate: int -> string): string {
    "---\n\n" + BlockQuote(q.text)
    + "**Source:** [" + (if q.title == "" then "Link" else q.title) + "](" + q.url + ")\n"
    + "**Saved:** " + formatDate(q.savedAt) + "\n\n"
  }

  function QuoteSections(quotes: seq<Quote>, formatDate: int -> string): string {
    if quotes == [] then ""
    else QuoteSections(quotes[..|quotes| - 1], formatDate) + QuoteSection(quotes[|quotes| - 1], formatDate)
  }

  /** The popup's export of a file: its name as title, then one section per
      quote in stored order. */
  function FlatMarkdown(fileName: string, quotes: seq<Quote>, formatDate: int -> string): string {
    "# " + fileName + "\n\n" + QuoteSections(quotes, formatDate)
  }

  /** The sections of two runs of quotes are the sections of each, in turn. */
  lemma {:induction false} QuoteSectionsAppend(a: seq<Quote>, b: seq<Quote>, formatDate: int -> string)
    ensures QuoteSections(a + b, formatDate) == QuoteSections(a, formatDate) + QuoteSections(b, formatDate)
  {
    if b == [] {
      assert a + b == a;
    } else {
      var init := b[..|b| - 1];
      var last := b[|b| - 1];
      QuoteSectionsAppend(a, init, formatDate);
      DropLastOfAppend(a, b);
      Associative(QuoteSections(a, formatDate), QuoteSections(init, formatDate), QuoteSection(last, formatDate));
    }
  }

  /** Saving a quote to a file appends exactly that quote's section to the
      file's export. */
  lemma ExportAfterSave(files: Files, name: string, q: Quote, createdAt: int, formatDate: int -> string)
    ensures FlatMarkdown(name, AppendQuote(files, name, q, createdAt)[name].quotes, formatDate)
         == FlatMarkdown(name, QuotesOf(files, name), formatDate) + QuoteSection(q, formatDate)
  {
    var before := QuotesOf(files, name);
    QuoteSectionsAppend(before, [q], formatDate);
    assert QuoteSections([q], formatDate) == QuoteSection(q, formatDate) by {
      assert [q][..0] == [];
    }
  }

  /** `generateMarkdown` of the popup. */
  method GenerateMarkdown(fileName: string, file: File, formatDate: int -> string) returns (md: string)
    ensures md == FlatMarkdown(fileName, file.quotes, formatDate)
  {
    var header := "# " + fileName + "\n\n";
    md := header;
    var i := 0;
    while i < |file.quotes|
      invariant 0 <= i <= |file.quotes|
      invariant md == header + QuoteSections(file.quotes[..i], formatDate)
    {
      var q := file.quotes[i];
      assert file.quotes[..i + 1][..i] == file.quotes[..i];
      Associative(header, QuoteSections(file.quotes[..i], formatDate), QuoteSection(q, formatDate));
      md := WriteQuote(md, q, formatDate);
      i := i + 1;
    }
    assert file.quotes[..i] == file.quotes;
  }

  /** The body of `generateMarkdown`'s `forEach`: the rule, the block quote,
      the source line and the date line, appended in turn. */
  method WriteQuote(md: string, q: Quote, formatDate: int -> string) returns (out: string)
    ensures out == md + QuoteSection(q, formatDate)
  {
    var section := "---\n\n";
    section := section + BlockQuote(q.text);
    section := section + "**Source:** [" + (if q.title == "" then "Link" else q.title) + "](" + q.url + ")\n";
    section := section + "**Saved:** " + formatDate(q.savedAt) + "\n\n";
    out := md + section;
  }

  // ---------------------------------------------------------------------------
  // The popup and its handlers

  class Popup {
    const storage: LocalStorage
    /** The store as last read or written by the popup. */
    var files: Files
    /** The names of the files whose checkbox is ticked. */
    var selectedFiles: set<string>

    /** The popup's copy of the store is the stored one, and well formed. */
    ghost predicate Valid()
      reads this, storage
    {
      files == storage.files && WellFormed(files)
    }

    /** Every ticked file is still listed. */
    ghost predicate SelectionListed()
      reads this
    {
      forall name :: name in selectedFiles ==> name in files
    }

    constructor(storage: LocalStorage)
      ensures this.storage == storage && files == map[] && selectedFiles == {}
    {
      this.storage := storage;
      files := map[];
      selectedFiles := {};
    }

    /** `loadFiles` */
    method LoadFiles()
      requires WellFormed(storage.files)
      modifies this`files
      ensures Valid()
    {
      files := storage.files;
    }

    /** `handleCheckboxChange`: tick or untick one file. */
    method HandleCheckboxChange(name: string, checked: bool)
      modifies this`selectedFiles
      ensures checked ==> selectedFiles == old(selectedFiles) + {name}
      ensures !checked ==> selectedFiles == old(selectedFiles) - {name}
    {
      if checked {
        selectedFiles := selectedFiles + {name};
      } else {
        selectedFiles := selectedFiles - {name};
      }
    }

    /** `deleteFile`: remove the file, write the store back and untick it. */
    method DeleteFile(name: string)
      requires Valid()
      modifies this`files, this`selectedFiles, storage
      ensures Valid()
      ensures files == old(files) - {name}
      ensures selectedFiles == old(selectedFiles) - {name}
      ensures old(SelectionListed()) ==> SelectionListed()
    {
      files := files - {name};
      storage.files := files;
      selectedFiles := selectedFiles - {name};
    }

    /** `deleteQuote`: drop the quotes with that id from the file; a file left
        empty is removed and unticked; a missing file is left alone. */
    method DeleteQuote(name: string, id: string)
      requires Valid()
      modifies this`files, this`selectedFiles, storage
      ensures Valid()
      ensures files == RemoveQuote(old(files), name, id)
      ensures name in old(files) && name !in files ==> selectedFiles == old(selectedFiles) - {name}
      ensures !(name in old(files) && name !in files) ==> selectedFiles == old(selectedFiles)
      ensures name !in old(files) ==> storage.files == old(storage.files)
      ensures old(SelectionListed()) ==> SelectionListed()
    {
      if name in files {
        files := files[name := files[name].(quotes := WithoutId(files[name].quotes, id))];
        if |files[name].quotes| == 0 {
          files := files - {name};
          selectedFiles := selectedFiles - {name};
        }
        assert files == RemoveQuote(old(files), name, id);
        storage.files := files;
      }
    }

    /** The confirmed batch delete: remove every ticked file, write the store
        back once and clear the selection. */
    method BatchDelete()
      requires Valid()
      modifies this`files, this`selectedFiles, storage
      ensures Valid()
      ensures files == old(files) - old(selectedFiles)
      ensures selectedFiles == {}
    {
      var rest := selectedFiles;
      while rest != {}
        invariant rest <= old(selectedFiles)
        invariant files == old(files) - (old(selectedFiles) - rest)
        invariant WellFormed(files)
        decreases rest
      {
        var name :| name in rest;
        files := files - {name};
        rest := rest - {name};
      }
      storage.files := files;
      selectedFiles := {};
    }

    /** The confirmed "delete everything": nothing happens when there is no
        file; otherwise the store and the selection are emptied. */
    method DeleteAll()
      requires Valid()
      modifies this`files, this`selectedFiles, storage
      ensures Valid()
      ensures |old(files)| == 0 ==> files == old(files) && selectedFiles == old(selectedFiles) && unchanged(storage)
      ensures |old(files)| != 0 ==> files == map[] && storage.files == map[] && selectedFiles == {}
    {
      if |files| == 0 {
        return;
      }
      storage.files := map[];
      files := map[];
      selectedFiles := {};
    }
  }
}
