/** The content script: the save tooltip with its file-name dropdown, and the
    save that appends the selected text to a file of the store. */
module Content {
  import opened Text
  import opened Store

  // ---------------------------------------------------------------------------
  // File-name sanitising

  /** The characters `[a-zA-Z0-9-_\s]` a file name may keep. */
  predicate IsNameChar(c: char) {
    ('a' <= c <= 'z') || ('A' <= c <= 'Z') || ('0' <= c <= '9') || c == '-' || c == '_' || IsSpace(c)
  }

  /** `name.replace(/[^a-zA-Z0-9-_\s]/g, '')` */
  function StripDisallowed(name: string): (r: string)
    ensures forall i :: 0 <= i < |r| ==> IsNameChar(r[i])
    ensures Subseq(r, name)
    ensures forall c :: c in name && IsNameChar(c) ==> c in r
    ensures (forall i :: 0 <= i < |name| ==> IsNameChar(name[i])) ==> r == name
  {
    if name == [] then []
    else if IsNameChar(name[0]) then [name[0]] + StripDisallowed(name[1..])
    else StripDisallowed(name[1..])
  }

  /** Every allowed character is kept as often as it occurs in the name; every other one is dropped. */
  lemma {:induction false} StripDisallowedCounts(name: string)
    ensures forall x :: multiset(StripDisallowed(name))[x] == if IsNameChar(x) then multiset(name)[x] else 0
  {
    if name != [] {
      StripDisallowedCounts(name[1..]);
      assert name == [name[0]] + name[1..];
    }
  }

  /** The sanitised file name: disallowed characters dropped, then trimmed. */
  function Sanitize(name: string): (r: string)
    ensures forall i :: 0 <= i < |r| ==> IsNameChar(r[i])
    ensures IsTrimmed(r)
  {
    TrimKeepsNameChars(StripDisallowed(name));
    Trim(StripDisallowed(name))
  }

  /** Trimming a string of name characters leaves only name characters. */
  lemma TrimKeepsNameChars(s: string)
    requires forall i :: 0 <= i < |s| ==> IsNameChar(s[i])
    ensures forall j :: 0 <= j < |Trim(s)| ==> IsNameChar(Trim(s)[j])
  {
    var r := Trim(s);
    var i :| SpaceAround(s, r, i);
    forall j | 0 <= j < |r| ensures IsNameChar(r[j]) {
      assert r[j] == s[i + j];
    }
  }

  /** Sanitising an already sanitised name changes nothing. */
  lemma SanitizeIdempotent(name: string)
    ensures Sanitize(Sanitize(name)) == Sanitize(name)
  {
    var once := Sanitize(name);
    assert StripDisallowed(once) == once;
    TrimTrimmed(once);
  }

  /** A name that only holds allowed characters and no outer whitespace is
      kept as it is. */
  lemma SanitizeKeepsCleanName(name: string)
    requires forall i :: 0 <= i < |name| ==> IsNameChar(name[i])
    requires IsTrimmed(name)
    ensures Sanitize(name) == name
  {
    assert StripDisallowed(name) == name;
    TrimTrimmed(name);
  }

  // ---------------------------------------------------------------------------
  // The inherited-name lookup of the save, as written

  /** The members every plain JavaScript object inherits from `Object.prototype`;
      all of them survive sanitising. */
  const InheritedNames: set<string> := {
    "constructor", "__proto__", "toString", "toLocaleString", "valueOf",
    "hasOwnProperty", "isPrototypeOf", "propertyIsEnumerable",
    "__defineGetter__", "__defineSetter__", "__lookupGetter__", "__lookupSetter__"
  }

  /** The save's store update as written: `files[name]` also finds an inherited
      member, so for an absent inherited name the file is never created and
      `files[name].quotes.push` throws before anything is written (`None`). */
  function AppendQuoteAsWritten(files: Files, name: string, q: Quote, createdAt: int): (r: Option<Files>)
    ensures r.None? <==> name !in files && name in InheritedNames
    ensures r.Some? ==> r.value == AppendQuote(files, name, q, createdAt)
  {
    if name !in files && name in InheritedNames then None
    else Some(AppendQuote(files, name, q, createdAt))
  }

  /** Saving into a new file called "constructor" loses the quote as written,
      while the intended update stores it under that name. */
  lemma InheritedNameLosesQuote(q: Quote)
    ensures Sanitize("constructor") == "constructor"
    ensures AppendQuoteAsWritten(map[], "constructor", q, 0) == None
    ensures AppendQuote(map[], "constructor", q, 0)["constructor"].quotes == [q]
  {
    ConstructorIsCleanName();
    assert "constructor" in InheritedNames;
  }

  lemma ConstructorIsCleanName()
    ensures Sanitize("constructor") == "constructor"
  {
    var name := "constructor";
    forall i | 0 <= i < |name| ensures IsNameChar(name[i]) {
    }
    SanitizeKeepsCleanName(name);
  }

  // ---------------------------------------------------------------------------
  // The dropdown

  /** One row of the dropdown: an existing file, or the "Create" entry. */
  datatype DropdownItem = DropdownItem(fileName: string, create: bool, active: bool)

  /** What `renderDropdown` shows: the rows, and whether the
      "Type a name to create a new file" hint is shown. */
  datatype DropdownView = DropdownView(items: seq<DropdownItem>, emptyHint: bool)

  /** At most one row is highlighted. */
  predicate AtMostOneActive(items: seq<DropdownItem>) {
    forall i, j :: 0 <= i < |items| && 0 <= j < |items| && items[i].active && items[j].active ==> i == j
  }

  /** The names the dropdown lists for the typed value: those that contain it,
      ignoring case, in their original order. */
  function FilterNames(names: seq<string>, typed: string): (r: seq<string>)
    ensures Subseq(r, names)
    ensures forall n :: n in r <==> n in names && ContainsIgnoringCase(n, typed)
    ensures |r| <= |names|
  {
    if names == [] then []
    else if ContainsIgnoringCase(names[0], typed) then [names[0]] + FilterNames(names[1..], typed)
    else FilterNames(names[1..], typed)
  }

  /** Every matching name is kept as often as it occurs; every other one is dropped. */
  lemma {:induction false} FilterNamesCounts(names: seq<string>, typed: string)
    ensures forall x :: multiset(FilterNames(names, typed))[x] == if ContainsIgnoringCase(x, typed) then multiset(names)[x] else 0
  {
    if names != [] {
      FilterNamesCounts(names[1..], typed);
      assert names == [names[0]] + names[1..];
    }
  }

  /** An empty typed value keeps every name. */
  lemma {:induction false} FilterNamesEmpty(names: seq<string>)
    ensures FilterNames(names, "") == names
  {
    if names != [] {
      ContainsSelf(ToLower(names[0]));
      FilterNamesEmpty(names[1..]);
    }
  }

  /** The typed value survives the filter exactly when it is an existing name. */
  lemma FilterNamesKeepsExactName(names: seq<string>, typed: string)
    ensures typed in FilterNames(names, typed) <==> typed in names
  {
    ContainsSelf(ToLower(typed));
  }

  /** `renderDropdown(files, dropdown, input, filterValue)` */
  function RenderDropdown(files: seq<string>, filterValue: string): (v: DropdownView)
    ensures var offset := if filterValue != "" && filterValue !in files then 1 else 0;
      && |v.items| == |files| + offset
      && (offset == 1 ==> v.items[0] == DropdownItem(filterValue, true, true))
      && (forall i :: 0 <= i < |files| ==>
            && v.items[i + offset].fileName == files[i]
            && !v.items[i + offset].create
            && (v.items[i + offset].active <==> filterValue == "" && i == 0))
    ensures (exists i :: 0 <= i < |v.items| && v.items[i].create) <==> filterValue != "" && filterValue !in files
    ensures v.emptyHint <==> files == [] && filterValue == ""
    ensures AtMostOneActive(v.items)
  {
    RowsListFiles(files, filterValue);
    RowsCreateOnlyForNewName(files, filterValue);
    RowsAtMostOneActive(files, filterValue);
    DropdownView(DropdownRows(files, filterValue), files == [] && filterValue == "")
  }

  /** The dropdown's rows: a "Create" entry when the typed value is a new
      name, then one row per listed name, the first highlighted when nothing
      is typed. */
  function DropdownRows(files: seq<string>, filterValue: string): seq<DropdownItem> {
    (if filterValue != "" && filterValue !in files then [DropdownItem(filterValue, true, true)] else [])
    + seq(|files|, i requires 0 <= i < |files| => DropdownItem(files[i], false, filterValue == "" && i == 0))
  }

  lemma RowsListFiles(files: seq<string>, filterValue: string)
    ensures var rows := DropdownRows(files, filterValue);
      var offset := if filterValue != "" && filterValue !in files then 1 else 0;
      && |rows| == |files| + offset
      && (offset == 1 ==> rows[0] == DropdownItem(filterValue, true, true))
      && forall i :: 0 <= i < |files| ==> rows[i + offset] == DropdownItem(files[i], false, filterValue == "" && i == 0)
  {
  }

  lemma RowsCreateOnlyForNewName(files: seq<string>, filterValue: string)
    ensures (exists i :: 0 <= i < |DropdownRows(files, filterValue)| && DropdownRows(files, filterValue)[i].create)
            <==> filterValue != "" && filterValue !in files
  {
    RowsListFiles(files, filterValue);
    var rows := DropdownRows(files, filterValue);
    if filterValue != "" && filterValue !in files {
      assert rows[0].create;
    } else {
      forall i | 0 <= i < |rows| ensures !rows[i].create {
        assert rows[i + 0] == DropdownItem(files[i], false, filterValue == "" && i == 0);
      }
    }
  }

  lemma RowsAtMostOneActive(files: seq<string>, filterValue: string)
    ensures AtMostOneActive(DropdownRows(files, filterValue))
  {
    RowsListFiles(files, filterValue);
    var rows := DropdownRows(files, filterValue);
    var offset := if filterValue != "" && filterValue !in files then 1 else 0;
    forall i | 0 <= i < |rows| && rows[i].active ensures i == 0 {
      if i >= offset {
        assert rows[(i - offset) + offset].active;
      }
    }
  }

  /** After typing `typed`, the "Create" entry is shown (first, highlighted)
      exactly when `typed` is non-empty and not the name of an existing file. */
  lemma CreateEntryIffNewName(names: seq<string>, typed: string)
    ensures var v := RenderDropdown(FilterNames(names, typed), typed);
      (|v.items| > 0 && v.items[0].create && v.items[0].active && v.items[0].fileName == typed)
        <==> typed != "" && typed !in names
  {
    FilterNamesKeepsExactName(names, typed);
    var filtered := FilterNames(names, typed);
    var v := RenderDropdown(filtered, typed);
    if typed == "" || typed in names {
      if |v.items| > 0 {
        assert v.items[0].fileName == filtered[0];
      }
    }
  }

  /** The index of the first highlighted row (`indexOf` of the active item), or -1. */
  function ActiveIndex(items: seq<DropdownItem>): (r: int)
    ensures -1 <= r < |items|
    ensures r >= 0 ==> items[r].active && forall j :: 0 <= j < r ==> !items[j].active
    ensures r == -1 ==> forall j :: 0 <= j < |items| ==> !items[j].active
  {
    if items == [] then -1
    else if items[0].active then 0
    else
      var k := ActiveIndex(items[1..]);
      if k == -1 then -1 else k + 1
  }

  /** The dropdown shows the stored file names, in ascending order, that
      contain `typed`, below a "Create" entry when `typed` is a new name. */
  ghost predicate ListsStoredNames(v: DropdownView, files: Files, typed: string) {
    exists names :: SortedNames(names) && (forall k :: k in names <==> k in files)
      && RenderDropdown(FilterNames(names, typed), typed) == v
  }

  /** The stored names, sorted, filtered by `typed` and rendered. */
  method StoredNamesDropdown(files: Files, typed: string) returns (v: DropdownView)
    ensures ListsStoredNames(v, files, typed)
    ensures AtMostOneActive(v.items)
  {
    var names := ListFileNames(files);
    if typed == "" {
      FilterNamesEmpty(names);
    }
    v := RenderDropdown(FilterNames(names, typed), typed);
  }

  /** With nothing typed and at least one file, the first file is highlighted. */
  lemma FirstNameActiveWhenNothingTyped(files: seq<string>)
    requires files != []
    ensures var v := RenderDropdown(files, "");
      ActiveIndex(v.items) == 0 && v.items[0].fileName == files[0]
  {
  }

  /** ArrowDown: the highlight moves one row down, but not past the last row. */
  function NextDown(active: int, count: nat): (r: int)
    requires -1 <= active < count
    ensures -1 <= r < count
    ensures count > 0 ==> 0 <= r
    ensures r == active + 1 || (r == active && active == count - 1)
  {
    if active < count - 1 then active + 1 else active
  }

  /** ArrowUp: the highlight moves one row up, but not above the first row;
      with no highlighted row nothing moves. */
  function NextUp(active: int, count: nat): (r: int)
    requires -1 <= active < count
    ensures -1 <= r < count
    ensures active >= 0 ==> r >= 0
    ensures r == active - 1 || (r == active && active <= 0)
  {
    if active > 0 then active - 1 else active
  }

  /** Move the highlight from row `from` (-1 for none) to row `to`. */
  function MoveActive(items: seq<DropdownItem>, from: int, to: int): (r: seq<DropdownItem>)
    requires -1 <= from < |items| && 0 <= to < |items|
    ensures |r| == |items|
    ensures forall i :: 0 <= i < |items| ==>
              r[i] == items[i].(active := if i == to then true else if i == from then false else items[i].active)
  {
    seq(|items|, i requires 0 <= i < |items| =>
      items[i].(active := if i == to then true else if i == from then false else items[i].active))
  }

  /** Moving the only highlight leaves exactly the target row highlighted. */
  lemma MoveActiveHighlightsTarget(items: seq<DropdownItem>, to: int)
    requires AtMostOneActive(items)
    requires 0 <= to < |items|
    ensures var r := MoveActive(items, ActiveIndex(items), to);
      AtMostOneActive(r) && ActiveIndex(r) == to
  {
    var from := ActiveIndex(items);
    var r := MoveActive(items, from, to);
    forall j | 0 <= j < |r| && j != to ensures !r[j].active {
      if items[j].active {
        assert from >= 0 && items[from].active;
      }
    }
    assert r[to].active;
  }

  /** `positionTooltip` over whole pixels: the tooltip goes below the selection
      and at its left edge, is pulled back inside the right and bottom margins
      (flipping above the selection), and never starts closer than 10 to the
      top or left edge. */
  method PositionTooltip(selTop: int, selBottom: int, selLeft: int,
                         width: int, height: int, viewWidth: int, viewHeight: int)
    returns (top: int, left: int)
    ensures top >= 10 && left >= 10
    ensures 10 <= selLeft && selLeft + width <= viewWidth - 20 ==> left == selLeft
    ensures viewWidth - width - 20 >= 10 ==> left + width <= viewWidth - 20
    ensures selBottom >= 0 && selBottom + 10 + height <= viewHeight - 20 ==> top == selBottom + 10
    ensures selBottom + 10 + height > viewHeight - 20 && selTop - height - 10 >= 10 ==>
              top + height + 10 == selTop
    ensures var pulled := if selLeft + width > viewWidth - 20 then viewWidth - width - 20 else selLeft;
            left == if pulled < 10 then 10 else pulled
    ensures var flipped := if selBottom + 10 + height > viewHeight - 20 then selTop - height - 10 else selBottom + 10;
            top == if flipped < 10 then 10 else flipped
  {
    top := selBottom + 10;
    left := selLeft;
    if left + width > viewWidth - 20 {
      left := viewWidth - width - 20;
    }
    if left < 10 {
      left := 10;
    }
    if top + height > viewHeight - 20 {
      top := selTop - height - 10;
    }
    if top < 10 {
      top := 10;
    }
  }

  /** The file the Enter key and the Save button save to: the highlighted row,
      else the trimmed input when it is not blank. */
  function SaveTarget(items: seq<DropdownItem>, inputValue: string): (r: Option<string>)
    ensures ActiveIndex(items) >= 0 ==> r == Some(items[ActiveIndex(items)].fileName)
    ensures ActiveIndex(items) < 0 ==> (r.Some? <==> Trim(inputValue) != "")
    ensures ActiveIndex(items) < 0 && r.Some? ==> r.value == Trim(inputValue) && IsTrimmed(r.value)
  {
    var k := ActiveIndex(items);
    if k >= 0 then Some(items[k].fileName)
    else if Trim(inputValue) != "" then Some(Trim(inputValue))
    else None
  }

  /** The store update of the save: read the files, create the file when it
      is missing, push the quote and write the files back. */
  method PushQuote(storage: LocalStorage, name: string, quote: Quote, createdAt: int)
    modifies storage
    ensures storage.files == AppendQuote(old(storage.files), name, quote, createdAt)
    ensures WellFormed(old(storage.files)) ==> WellFormed(storage.files)
  {
    var files := storage.files;
    if name !in files {
      files := files[name := File(name, createdAt, [])];
    }
    files := files[name := files[name].(quotes := files[name].quotes + [quote])];
    storage.files := files;
  }

  /** The storage half of `saveToFile`: nothing is written without a file
      name, without selected text or when the name sanitises to nothing;
      otherwise the selection is appended to the sanitised file. */
  method SaveSelection(storage: LocalStorage, selected: string, filename: string,
                       id: string, url: string, title: string, savedAt: int, createdAt: int)
    returns (saved: bool)
    modifies storage
    ensures saved <==> filename != "" && selected != "" && Sanitize(filename) != ""
    ensures !saved ==> storage.files == old(storage.files)
    ensures saved ==> storage.files == AppendQuote(old(storage.files), Sanitize(filename),
                                                   Quote(id, selected, url, title, savedAt), createdAt)
    ensures WellFormed(old(storage.files)) ==> WellFormed(storage.files)
  {
    if filename == "" || selected == "" {
      return false;
    }
    var name := Sanitize(filename);
    if name == "" {
      return false;
    }
    PushQuote(storage, name, Quote(id, selected, url, title, savedAt), createdAt);
    saved := true;
  }

  // ---------------------------------------------------------------------------
  // The script's state

  /** The state the content script keeps between events: the selected text,
      whether the tooltip is open, and the rows of its dropdown. */
  class ContentScript {
    var selectedText: string
    var tooltipOpen: bool
    var items: seq<DropdownItem>
    var emptyHint: bool

    ghost predicate Valid()
      reads this
    {
      AtMostOneActive(items)
    }

    constructor()
      ensures Valid()
      ensures selectedText == "" && !tooltipOpen && items == [] && !emptyHint
    {
      selectedText := "";
      tooltipOpen := false;
      items := [];
      emptyHint := false;
    }

    /** `showTooltip`: open the tooltip and list every stored file name. */
    method ShowTooltip(storage: LocalStorage)
      modifies this`tooltipOpen, this`items, this`emptyHint
      ensures Valid() && tooltipOpen && selectedText == old(selectedText)
      ensures ListsStoredNames(DropdownView(items, emptyHint), storage.files, "")
    {
      tooltipOpen := true;
      var view := StoredNamesDropdown(storage.files, "");
      items, emptyHint := view.items, view.emptyHint;
      assert view == DropdownView(items, emptyHint);
    }

    /** The `triggerSave` message (keyboard shortcut), given the page's selection. */
    method OnTriggerSave(storage: LocalStorage, selection: string)
      requires Valid()
      modifies this
      ensures Valid()
      ensures Trim(selection) == "" ==> unchanged(this)
      ensures Trim(selection) != "" ==> selectedText == Trim(selection) && tooltipOpen
      ensures Trim(selection) != "" ==> ListsStoredNames(DropdownView(items, emptyHint), storage.files, "")
    {
      var text := Trim(selection);
      if text != "" {
        selectedText := text;
        ShowTooltip(storage);
      }
    }

    /** The `showTooltip` message from the context menu, carrying the selection. */
    method OnShowTooltip(storage: LocalStorage, messageText: string)
      requires Valid()
      modifies this
      ensures Valid()
      ensures messageText == "" ==> unchanged(this)
      ensures messageText != "" ==> selectedText == Trim(messageText) && tooltipOpen
      ensures messageText != "" ==> ListsStoredNames(DropdownView(items, emptyHint), storage.files, "")
    {
      if messageText != "" {
        selectedText := Trim(messageText);
        ShowTooltip(storage);
      }
    }

    /** The input's `input` event: list the names containing the typed value. */
    method OnInput(storage: LocalStorage, value: string)
      modifies this`items, this`emptyHint
      ensures Valid()
      ensures ListsStoredNames(DropdownView(items, emptyHint), storage.files, value)
    {
      var view := StoredNamesDropdown(storage.files, value);
      items, emptyHint := view.items, view.emptyHint;
      assert view == DropdownView(items, emptyHint);
    }

    /** The ArrowDown key. */
    method OnArrowDown()
      requires Valid()
      modifies this`items
      ensures Valid()
      ensures |items| == |old(items)|
      ensures ActiveIndex(items) == NextDown(ActiveIndex(old(items)), |old(items)|)
      ensures forall i :: 0 <= i < |items| ==>
                items[i].fileName == old(items)[i].fileName && items[i].create == old(items)[i].create
    {
      var k := ActiveIndex(items);
      if k < |items| - 1 {
        MoveActiveHighlightsTarget(items, k + 1);
        items := MoveActive(items, k, k + 1);
      }
    }

    /** The ArrowUp key. */
    method OnArrowUp()
      requires Valid()
      modifies this`items
      ensures Valid()
      ensures |items| == |old(items)|
      ensures ActiveIndex(items) == NextUp(ActiveIndex(old(items)), |old(items)|)
      ensures forall i :: 0 <= i < |items| ==>
                items[i].fileName == old(items)[i].fileName && items[i].create == old(items)[i].create
    {
      var k := ActiveIndex(items);
      if k > 0 {
        MoveActiveHighlightsTarget(items, k - 1);
        items := MoveActive(items, k, k - 1);
      }
    }

    /** `saveToFile(filename)`. The quote's id, the page's URL and title and the
        two clock readings are given. Nothing is written when the name or the
        selected text is empty or the name sanitises to nothing; otherwise the
        quote is appended to the sanitised file and the tooltip closes. */
    method SaveToFile(storage: LocalStorage, filename: string,
                      id: string, url: string, title: string, savedAt: int, createdAt: int)
      returns (saved: bool)
      requires Valid()
      modifies this`tooltipOpen, this`items, this`emptyHint, storage
      ensures Valid()
      ensures saved <==> filename != "" && old(selectedText) != "" && Sanitize(filename) != ""
      ensures !saved ==> storage.files == old(storage.files) && unchanged(this)
      ensures saved ==>
                && storage.files == AppendQuote(old(storage.files), Sanitize(filename),
                                                Quote(id, old(selectedText), url, title, savedAt), createdAt)
                && !tooltipOpen && items == []
    {
      saved := SaveSelection(storage, selectedText, filename, id, url, title, savedAt, createdAt);
      if saved {
        RemoveTooltip();
      }
    }

    /** `removeTooltip`: the tooltip and its rows go away; the selected text
        is kept. */
    method RemoveTooltip()
      modifies this`tooltipOpen, this`items, this`emptyHint
      ensures Valid() && !tooltipOpen && items == [] && !emptyHint
    {
      tooltipOpen, items, emptyHint := false, [], false;
    }

    /** `handleEscape`: the Escape key closes the tooltip; any other key does
        nothing. */
    method OnKeyDown(key: string)
      requires Valid()
      modifies this`tooltipOpen, this`items, this`emptyHint
      ensures Valid()
      ensures key == "Escape" ==> !tooltipOpen && items == []
      ensures key != "Escape" ==> unchanged(this)
    {
      if key == "Escape" {
        RemoveTooltip();
      }
    }

    /** `handleClickOutside`: a click outside the open tooltip closes it; a
        click inside it, or with no tooltip, does nothing. */
    method OnClick(insideTooltip: bool)
      requires Valid()
      modifies this`tooltipOpen, this`items, this`emptyHint
      ensures Valid()
      ensures old(tooltipOpen) && !insideTooltip ==> !tooltipOpen && items == []
      ensures !(old(tooltipOpen) && !insideTooltip) ==> unchanged(this)
    {
      if tooltipOpen && !insideTooltip {
        RemoveTooltip();
      }
    }

    /** The Enter key and the Save button: save to the highlighted row's file,
        else to the trimmed input, else do nothing. */
    method OnEnter(storage: LocalStorage, inputValue: string,
                   id: string, url: string, title: string, savedAt: int, createdAt: int)
      returns (saved: bool)
      requires Valid()
      modifies this`tooltipOpen, this`items, this`emptyHint, storage
      ensures Valid()
      ensures saved <==> && SaveTarget(old(items), inputValue).Some?
                         && SaveTarget(old(items), inputValue).value != ""
                         && old(selectedText) != ""
                         && Sanitize(SaveTarget(old(items), inputValue).value) != ""
      ensures !saved ==> storage.files == old(storage.files) && unchanged(this)
      ensures saved ==>
                && storage.files == AppendQuote(old(storage.files), Sanitize(SaveTarget(old(items), inputValue).value),
                                                Quote(id, old(selectedText), url, title, savedAt), createdAt)
                && !tooltipOpen && items == []
    {
      var target := SaveTarget(items, inputValue);
      saved := false;
      if target.Some? {
        saved := SaveToFile(storage, target.value, id, url, title, savedAt, createdAt);
      }
    }
  }
}
