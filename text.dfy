/** The JavaScript string built-ins the extension relies on, over `string`
    (a sequence of code points): the `\s` class and `trim`, ASCII
    `toLowerCase`, `includes`, the default `sort` order, `split`/`join`
    and the markdown block-quote transform built from them. */
module Text {

  /** JavaScript's `\s` class: the WhiteSpace and LineTerminator code points.
      `String.prototype.trim` strips exactly this set. */
  const Spaces: set<char> := {
    '\t', '\n', '\U{000B}', '\U{000C}', '\r', ' ', '\U{00A0}', '\U{1680}',
    '\U{2000}', '\U{2001}', '\U{2002}', '\U{2003}', '\U{2004}', '\U{2005}',
    '\U{2006}', '\U{2007}', '\U{2008}', '\U{2009}', '\U{200A}',
    '\U{2028}', '\U{2029}', '\U{202F}', '\U{205F}', '\U{3000}', '\U{FEFF}'
  }

  predicate IsSpace(c: char) {
    c in Spaces
  }

  /** Neither end of `s` is whitespace. */
  predicate IsTrimmed(s: string) {
    s == [] || (!IsSpace(s[0]) && !IsSpace(s[|s| - 1]))
  }

  /** `s.trimStart()` */
  function TrimStart(s: string): (r: string)
    ensures r == [] || !IsSpace(r[0])
    ensures |r| <= |s|
  {
    if s != [] && IsSpace(s[0]) then TrimStart(s[1..]) else s
  }

  /** `trimStart` leaves a suffix of `s`. */
  lemma {:induction false} TrimStartIsSuffix(s: string)
    ensures TrimStart(s) == s[|s| - |TrimStart(s)|..]
  {
    if s != [] && IsSpace(s[0]) {
      TrimStartIsSuffix(s[1..]);
      assert s[1..][|s| - 1 - |TrimStart(s)|..] == s[|s| - |TrimStart(s)|..];
    }
  }

  /** `trimStart` drops only whitespace. */
  lemma {:induction false} TrimStartDropsSpace(s: string)
    ensures forall i :: 0 <= i < |s| - |TrimStart(s)| ==> IsSpace(s[i])
  {
    if s != [] && IsSpace(s[0]) {
      TrimStartDropsSpace(s[1..]);
    }
  }

  /** `s.trimEnd()` */
  function TrimEnd(s: string): (r: string)
    ensures r == [] || !IsSpace(r[|r| - 1])
    ensures |r| <= |s|
  {
    if s != [] && IsSpace(s[|s| - 1]) then TrimEnd(s[..|s| - 1]) else s
  }

  /** `trimEnd` leaves a prefix of `s`. */
  lemma {:induction false} TrimEndIsPrefix(s: string)
    ensures TrimEnd(s) == s[..|TrimEnd(s)|]
  {
    if s != [] && IsSpace(s[|s| - 1]) {
      TrimEndIsPrefix(s[..|s| - 1]);
      assert s[..|s| - 1][..|TrimEnd(s)|] == s[..|TrimEnd(s)|];
    }
  }

  /** `trimEnd` drops only whitespace. */
  lemma {:induction false} TrimEndDropsSpace(s: string)
    ensures forall i :: |TrimEnd(s)| <= i < |s| ==> IsSpace(s[i])
  {
    if s != [] && IsSpace(s[|s| - 1]) {
      TrimEndDropsSpace(s[..|s| - 1]);
    }
  }

  /** `s.trim()`: the longest slice of `s` with no whitespace at either end,
      obtained by dropping only whitespace. */
  function Trim(s: string): (r: string)
    ensures IsTrimmed(r)
    ensures exists i :: SpaceAround(s, r, i)
  {
    TrimSlice(s);
    TrimEnds(s);
    TrimEnd(TrimStart(s))
  }

  /** Trimming the start and then the end leaves the slice of `s` between its
      leading and trailing whitespace. */
  lemma TrimSlice(s: string)
    ensures SpaceAround(s, TrimEnd(TrimStart(s)), |s| - |TrimStart(s)|)
  {
    var t := TrimStart(s);
    TrimStartIsSuffix(s);
    TrimEndIsPrefix(t);
    TrimStartDropsSpace(s);
    TrimEndDropsSpace(t);
    SpaceAroundSuffixPrefix(s, t, TrimEnd(t));
  }

  /** A prefix `r` of a suffix `t` of `s`, with only whitespace in `s` before
      `t` and only whitespace in `t` after `r`, sits in `s` between
      whitespace. */
  lemma SpaceAroundSuffixPrefix(s: string, t: string, r: string)
    requires |t| <= |s| && t == s[|s| - |t|..] && |r| <= |t| && r == t[..|r|]
    requires forall j :: 0 <= j < |s| - |t| ==> IsSpace(s[j])
    requires forall j :: |r| <= j < |t| ==> IsSpace(t[j])
    ensures SpaceAround(s, r, |s| - |t|)
  {
    var i := |s| - |t|;
    SliceOfSlice(s, t, r, i);
    forall j | i + |r| <= j < |s| ensures IsSpace(s[j]) {
      assert s[j] == t[j - i];
    }
  }

  /** A prefix of a suffix of `s` is a slice of `s`. */
  lemma SliceOfSlice(s: string, t: string, r: string, i: nat)
    requires i <= |s| && t == s[i..] && |r| <= |t| && r == t[..|r|]
    ensures i + |r| <= |s| && r == s[i..i + |r|]
  {
    forall k | 0 <= k < |r| ensures r[k] == s[i + k] {
      assert r[k] == t[k];
    }
  }

  lemma TrimEnds(s: string)
    ensures IsTrimmed(TrimEnd(TrimStart(s)))
  {
    var t := TrimStart(s);
    var r := TrimEnd(t);
    TrimEndIsPrefix(t);
    assert r != [] ==> r[0] == t[0];
  }

  /** `r` sits at position `i` of `s`, with only whitespace before and after it. */
  predicate SpaceAround(s: string, r: string, i: int) {
    && 0 <= i <= |s| - |r| && r == s[i..i + |r|]
    && (forall j :: 0 <= j < i ==> IsSpace(s[j]))
    && (forall j :: i + |r| <= j < |s| ==> IsSpace(s[j]))
  }

  /** Trimming a string that already has no whitespace at its ends changes nothing. */
  lemma TrimTrimmed(s: string)
    requires IsTrimmed(s)
    ensures Trim(s) == s
  {
  }

  /** A string made only of whitespace trims to the empty string. */
  lemma {:induction false} TrimAllSpace(s: string)
    requires forall i :: 0 <= i < |s| ==> IsSpace(s[i])
    ensures Trim(s) == []
  {
    if s != [] {
      TrimAllSpace(s[1..]);
    }
  }

  /** ASCII lower-casing of one character. */
  function LowerChar(c: char): char {
    if 'A' <= c <= 'Z' then (c as int + 32) as char else c
  }

  /** `s.toLowerCase()` restricted to ASCII letters. */
  function ToLower(s: string): (r: string)
    ensures |r| == |s|
    ensures forall i :: 0 <= i < |s| ==> r[i] == LowerChar(s[i])
  {
    if s == [] then [] else [LowerChar(s[0])] + ToLower(s[1..])
  }

  predicate StartsWith(s: string, prefix: string) {
    |prefix| <= |s| && s[..|prefix|] == prefix
  }

  /** `s.includes(sub)`, by scanning start positions left to right. */
  predicate Contains(s: string, sub: string) {
    StartsWith(s, sub) || (s != [] && Contains(s[1..], sub))
  }

  /** `sub` occurs in `s` starting at position `i`. */
  predicate OccursAt(s: string, sub: string, i: int) {
    0 <= i <= |s| - |sub| && s[i..i + |sub|] == sub
  }

  /** `Contains` agrees with the positional definition of a substring. */
  lemma {:induction false} ContainsAt(s: string, sub: string)
    ensures Contains(s, sub) <==> exists i :: OccursAt(s, sub, i)
  {
    if Contains(s, sub) {
      if StartsWith(s, sub) {
        assert OccursAt(s, sub, 0);
      } else {
        ContainsAt(s[1..], sub);
        var i :| OccursAt(s[1..], sub, i);
        assert s[1..][i..i + |sub|] == s[i + 1..i + 1 + |sub|];
        assert OccursAt(s, sub, i + 1);
      }
    }
    if exists i :: OccursAt(s, sub, i) {
      var i :| OccursAt(s, sub, i);
      if i > 0 {
        assert s[1..][i - 1..i - 1 + |sub|] == s[i..i + |sub|];
        assert OccursAt(s[1..], sub, i - 1);
        ContainsAt(s[1..], sub);
      } else {
        assert StartsWith(s, sub);
      }
    }
  }

  /** Every string contains itself and the empty string. */
  lemma ContainsSelf(s: string)
    ensures Contains(s, s) && Contains(s, [])
  {
  }

  /** `s.toLowerCase().includes(term.toLowerCase())` */
  predicate ContainsIgnoringCase(s: string, term: string) {
    Contains(ToLower(s), ToLower(term))
  }

  /** The lower-cased term occurs somewhere in the lower-cased text. */
  lemma ContainsIgnoringCaseAt(s: string, term: string)
    ensures ContainsIgnoringCase(s, term) <==> exists i :: OccursAt(ToLower(s), ToLower(term), i)
  {
    ContainsAt(ToLower(s), ToLower(term));
    assert ContainsIgnoringCase(s, term) == Contains(ToLower(s), ToLower(term));
    assert (exists i :: OccursAt(ToLower(s), ToLower(term), i)) ==> ContainsIgnoringCase(s, term);
    assert ContainsIgnoringCase(s, term) ==> exists i :: OccursAt(ToLower(s), ToLower(term), i);
  }

  /** The order of JavaScript's default `Array.prototype.sort` on strings:
      lexicographic by code point, a proper prefix first. This is the UTF-16
      code-unit order of `sort()` on strings without characters above U+FFFF,
      which includes every sanitised file name. */
  predicate LessEq(a: string, b: string) {
    a == [] || (b != [] && (a[0] < b[0] || (a[0] == b[0] && LessEq(a[1..], b[1..]))))
  }

  lemma {:induction false} LessEqTotal(a: string, b: string)
    ensures LessEq(a, b) || LessEq(b, a)
  {
    if a != [] && b != [] && a[0] == b[0] {
      LessEqTotal(a[1..], b[1..]);
    }
  }

  lemma {:induction false} LessEqAntisymmetric(a: string, b: string)
    requires LessEq(a, b) && LessEq(b, a)
    ensures a == b
  {
    if a != [] && b != [] {
      LessEqAntisymmetric(a[1..], b[1..]);
      assert a == [a[0]] + a[1..] && b == [b[0]] + b[1..];
    }
  }

  lemma {:induction false} LessEqTransitive(a: string, b: string, c: string)
    requires LessEq(a, b) && LessEq(b, c)
    ensures LessEq(a, c)
  {
    if a != [] && b != [] && c != [] && a[0] == b[0] == c[0] {
      LessEqTransitive(a[1..], b[1..], c[1..]);
    }
  }

  /** `s.split(sep)` for a one-character separator: the pieces between
      separators, always at least one (the empty string splits to `[""]`). */
  function Split(s: string, sep: char): (parts: seq<string>)
    ensures |parts| >= 1
    ensures forall i :: 0 <= i < |parts| ==> sep !in parts[i]
  {
    if s == [] then [""]
    else
      var rest := Split(s[1..], sep);
      if s[0] == sep then [""] + rest else [[s[0]] + rest[0]] + rest[1..]
  }

  /** `parts.join(glue)` */
  function Join(parts: seq<string>, glue: string): string {
    if |parts| == 0 then ""
    else if |parts| == 1 then parts[0]
    else parts[0] + glue + Join(parts[1..], glue)
  }

  /** Splitting a string that holds no separator gives the string back as the only piece. */
  lemma {:induction false} SplitNoSep(a: string, t: string, sep: char)
    requires sep !in a
    ensures Split(a + t, sep) == [a + Split(t, sep)[0]] + Split(t, sep)[1..]
  {
    if a != [] {
      assert (a + t)[1..] == a[1..] + t;
      SplitNoSep(a[1..], t, sep);
      var x := Split(t, sep);
      assert Split(a + t, sep) == [[a[0]] + (a[1..] + x[0])] + x[1..];
      assert [a[0]] + (a[1..] + x[0]) == a + x[0];
    } else {
      assert a + t == t;
      var parts := Split(t, sep);
      assert a + parts[0] == parts[0];
      assert parts == [parts[0]] + parts[1..];
    }
  }

  /** Joining with the separator and splitting again gives the pieces back. */
  lemma {:induction false} SplitJoin(parts: seq<string>, sep: char)
    requires |parts| >= 1
    requires forall i :: 0 <= i < |parts| ==> sep !in parts[i]
    ensures Split(Join(parts, [sep]), sep) == parts
  {
    if |parts| == 1 {
      SplitNoSep(parts[0], "", sep);
      assert Split("", sep) == [""];
      assert parts[0] + "" == parts[0];
      assert Join(parts, [sep]) == parts[0];
    } else {
      var tail := Join(parts[1..], [sep]);
      SplitJoin(parts[1..], sep);
      assert Split([sep] + tail, sep) == [""] + Split(tail, sep) by {
        assert ([sep] + tail)[1..] == tail;
      }
      assert Join(parts, [sep]) == parts[0] + ([sep] + tail);
      SplitNoSep(parts[0], [sep] + tail, sep);
      assert Split([sep] + tail, sep)[0] == "";
      assert parts[0] + "" == parts[0];
      assert parts == [parts[0]] + parts[1..];
    }
  }

  /** Splitting and joining again with the separator gives the string back. */
  lemma {:induction false} JoinSplit(s: string, sep: char)
    ensures Join(Split(s, sep), [sep]) == s
  {
    if s != [] {
      JoinSplit(s[1..], sep);
      var rest := Split(s[1..], sep);
      if s[0] == sep {
        assert Split(s, sep)[1..] == rest;
      } else {
        var parts := Split(s, sep);
        assert parts[1..] == rest[1..];
        if |rest| > 1 {
          assert Join(rest, [sep]) == rest[0] + [sep] + Join(rest[1..], [sep]);
        }
      }
      assert s == [s[0]] + s[1..];
    }
  }

  lemma Associative(a: string, b: string, c: string)
    ensures (a + b) + c == a + (b + c)
  {
  }

  /** Dropping the last element of `a + b`, for a non-empty `b`, drops the
      last element of `b`. */
  lemma DropLastOfAppend<T>(a: seq<T>, b: seq<T>)
    requires b != []
    ensures (a + b)[..|a + b| - 1] == a + b[..|b| - 1]
    ensures (a + b)[|a + b| - 1] == b[|b| - 1]
  {
    var ab := a + b;
    var front, rest := ab[..|ab| - 1], a + b[..|b| - 1];
    forall i | 0 <= i < |front| ensures front[i] == rest[i] {
      if i >= |a| {
        assert ab[i] == b[i - |a|];
      }
    }
  }

  /** Each line prefixed with the markdown block-quote marker `> `. */
  function Prefixed(lines: seq<string>): (r: seq<string>)
    ensures |r| == |lines|
    ensures forall i :: 0 <= i < |lines| ==> r[i] == "> " + lines[i]
  {
    if lines == [] then [] else ["> " + lines[0]] + Prefixed(lines[1..])
  }

  /** `> ${text.split('\n').join('\n> ')}`: the text as markdown block-quote
      lines; a one-line text is just prefixed with the marker. */
  function QuoteLines(text: string): (r: string)
    ensures |r| >= 2 && r[..2] == "> "
  {
    "> " + Join(Split(text, '\n'), "\n> ")
  }

  /** A text without a newline is just prefixed with the marker. */
  lemma QuoteLinesOneLine(text: string)
    requires '\n' !in text
    ensures QuoteLines(text) == "> " + text
  {
    SplitNoSep(text, "", '\n');
    assert text + "" == text;
  }

  /** The block-quote paragraph both exporters emit for one quote. */
  function BlockQuote(text: string): string {
    QuoteLines(text) + "\n\n"
  }

  lemma {:induction false} JoinSnoc(parts: seq<string>, x: string, glue: string)
    requires |parts| >= 1
    ensures Join(parts + [x], glue) == Join(parts, glue) + glue + x
  {
    if |parts| > 1 {
      JoinSnoc(parts[1..], x, glue);
      assert (parts + [x])[1..] == parts[1..] + [x];
    } else {
      assert (parts + [x])[1..] == [x];
    }
  }

  /** The paragraph of a quote is its block-quote lines followed by one
      blank line: two empty pieces after the text's prefixed lines. */
  lemma BlockQuoteLines(text: string)
    ensures Split(BlockQuote(text), '\n') == Prefixed(Split(text, '\n')) + ["", ""]
  {
    var lines := Split(text, '\n');
    PrefixThenJoin(lines);
    var quoted := Prefixed(lines);
    JoinSnoc(quoted, "", "\n");
    JoinSnoc(quoted + [""], "", "\n");
    assert quoted + [""] + [""] == quoted + ["", ""];
    var j := Join(quoted, "\n");
    assert j + "\n" + "" + "\n" + "" == j + "\n\n";
    assert BlockQuote(text) == Join(quoted + ["", ""], "\n");
    forall i | 0 <= i < |quoted + ["", ""]| ensures '\n' !in (quoted + ["", ""])[i] {
      if i < |quoted| {
        assert quoted[i] == "> " + lines[i];
      }
    }
    SplitJoin(quoted + ["", ""], '\n');
  }

  lemma {:induction false} PrefixThenJoin(parts: seq<string>)
    requires |parts| >= 1
    ensures "> " + Join(parts, "\n> ") == Join(Prefixed(parts), "\n")
  {
    if |parts| > 1 {
      PrefixThenJoin(parts[1..]);
      assert Prefixed(parts)[1..] == Prefixed(parts[1..]);
      assert "> " + Join(parts, "\n> ")
          == ("> " + parts[0]) + "\n" + ("> " + Join(parts[1..], "\n> "));
    }
  }

  /** Every line of a quoted text is the corresponding line of the text with
      `> ` in front of it, and there are exactly as many lines. */
  lemma QuoteLinesPrefixEveryLine(text: string)
    ensures Split(QuoteLines(text), '\n') == Prefixed(Split(text, '\n'))
  {
    var lines := Split(text, '\n');
    PrefixThenJoin(lines);
    var quoted := Prefixed(lines);
    forall i | 0 <= i < |quoted| ensures '\n' !in quoted[i] {
      assert quoted[i] == "> " + lines[i];
    }
    SplitJoin(quoted, '\n');
  }
}
