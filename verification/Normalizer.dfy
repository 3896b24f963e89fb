/**
 The text form that is hashed for exact matches (gateway/pulsekv_gateway/normalizer.py), for text
 already in Unicode NFC: line ends unified, trailing blanks stripped, blank lines collapsed and
 trimmed.
 */
module Normalizer {

  // ------------------------------------------------------------ lines

  /** str.replace("\r\n", "\n"). */
  function UnifyCrLf(s: string): string
  {
    if s == "" then ""
    else if |s| >= 2 && s[0] == '\r' && s[1] == '\n' then "\n" + UnifyCrLf(s[2..])
    else [s[0]] + UnifyCrLf(s[1..])
  }

  /** str.replace("\r", "\n"). */
  function UnifyCr(s: string): (r: string)
    ensures |r| == |s|
    ensures forall i :: 0 <= i < |s| ==> r[i] == if s[i] == '\r' then '\n' else s[i]
  {
    seq(|s|, i requires 0 <= i < |s| => if s[i] == '\r' then '\n' else s[i])
  }

  function Unify(s: string): string
  {
    UnifyCr(UnifyCrLf(s))
  }

  /** str.split("\n"): always at least one line. */
  function Split(s: string): (lines: seq<string>)
    ensures lines != []
  {
    if s == "" then [""]
    else
      var rest := Split(s[1..]);
      if s[0] == '\n' then [""] + rest else [[s[0]] + rest[0]] + rest[1..]
  }

  /** "\n".join(lines). */
  function Join(lines: seq<string>): string
  {
    if lines == [] then ""
    else if |lines| == 1 then lines[0]
    else lines[0] + "\n" + Join(lines[1..])
  }

  predicate Inline(c: char)
  {
    c == ' ' || c == '\t' || c == '\U{0b}' || c == '\U{0c}'
  }

  function Rstrip(line: string): (r: string)
    ensures r <= line
    ensures r != "" ==> !Inline(r[|r| - 1])
    ensures forall i :: |r| <= i < |line| ==> Inline(line[i])
  {
    if line != "" && Inline(line[|line| - 1]) then Rstrip(line[..|line| - 1]) else line
  }

  // ------------------------------------------------------------ the list of lines

  /** The loop that appends each stripped line unless it would follow a blank line with another. */
  function Collapse(lines: seq<string>): seq<string>
  {
    if lines == [] then []
    else
      var done := Collapse(lines[..|lines| - 1]);
      var line := Rstrip(lines[|lines| - 1]);
      if line == "" && done != [] && done[|done| - 1] == "" then done else done + [line]
  }

  function DropLeading(lines: seq<string>): seq<string>
  {
    if lines != [] && lines[0] == "" then DropLeading(lines[1..]) else lines
  }

  function DropTrailing(lines: seq<string>): seq<string>
  {
    if lines != [] && lines[|lines| - 1] == "" then DropTrailing(lines[..|lines| - 1]) else lines
  }

  function Lines(text: string): seq<string>
  {
    DropTrailing(DropLeading(Collapse(Split(Unify(text)))))
  }

  function Normalize(text: string): string
  {
    Join(Lines(text))
  }

  /** normalize_for_hash, with its loops. */
  method NormalizeForHash(text: string) returns (normal: string)
    ensures normal == Normalize(text)
  {
    var lines := Split(Unify(text));
    var collapsed: seq<string> := [];
    for i := 0 to |lines|
      invariant collapsed == Collapse(lines[..i])
    {
      assert lines[..i + 1][..i] == lines[..i];
      var line := Rstrip(lines[i]);
      if !(line == "" && collapsed != [] && collapsed[|collapsed| - 1] == "") {
        collapsed := collapsed + [line];
      }
    }
    assert lines[..|lines|] == lines;
    ghost var all := collapsed;
    while collapsed != [] && collapsed[0] == ""
      invariant DropLeading(collapsed) == DropLeading(all)
      decreases |collapsed|
    {
      collapsed := collapsed[1..];
    }
    ghost var led := collapsed;
    while collapsed != [] && collapsed[|collapsed| - 1] == ""
      invariant DropTrailing(collapsed) == DropTrailing(led)
      decreases |collapsed|
    {
      collapsed := collapsed[..|collapsed| - 1];
    }
    normal := Join(collapsed);
  }

  // ------------------------------------------------------------ the canonical form

  predicate Clean(line: string)
  {
    && '\n' !in line && '\r' !in line
    && (line != "" ==> !Inline(line[|line| - 1]))
  }

  ghost predicate Collapsed(lines: seq<string>)
  {
    && (forall i :: 0 <= i < |lines| ==> Clean(lines[i]))
    && (forall i :: 0 < i < |lines| ==> lines[i - 1] != "" || lines[i] != "")
  }

  ghost predicate Canonical(lines: seq<string>)
  {
    && Collapsed(lines)
    && (lines != [] ==> lines[0] != "" && lines[|lines| - 1] != "")
  }

  lemma {:induction false} SplitLines(s: string)
    ensures forall i :: 0 <= i < |Split(s)| ==> '\n' !in Split(s)[i]
    ensures '\r' !in s ==> forall i :: 0 <= i < |Split(s)| ==> '\r' !in Split(s)[i]
  {
    if s != "" {
      SplitLines(s[1..]);
    }
  }

  /** A line without line ends stays in one piece in front of whatever follows. */
  lemma {:induction false} SplitLine(line: string, rest: string)
    requires '\n' !in line
    ensures Split(line) == [line]
    ensures Split(line + "\n" + rest) == [line] + Split(rest)
    decreases |line|
  {
    var whole := line + "\n" + rest;
    if line == "" {
      assert whole == "\n" + rest && whole[1..] == rest;
    } else {
      SplitLine(line[1..], rest);
      assert whole[0] == line[0] && whole[1..] == line[1..] + "\n" + rest;
      assert [line[0]] + line[1..] == line;
    }
  }

  lemma {:induction false} SplitJoin(lines: seq<string>)
    requires lines != [] && forall i :: 0 <= i < |lines| ==> '\n' !in lines[i]
    ensures Split(Join(lines)) == lines
    decreases |lines|
  {
    if |lines| == 1 {
      SplitLine(lines[0], "");
    } else {
      SplitJoin(lines[1..]);
      SplitLine(lines[0], Join(lines[1..]));
    }
  }

  lemma {:induction false} JoinHasNoCr(lines: seq<string>)
    requires forall i :: 0 <= i < |lines| ==> '\r' !in lines[i]
    ensures '\r' !in Join(lines)
  {
    if |lines| > 1 {
      JoinHasNoCr(lines[1..]);
    }
  }

  lemma {:induction false} UnifyLeaves(s: string)
    requires '\r' !in s
    ensures UnifyCrLf(s) == s && UnifyCr(s) == s
  {
    if s != "" {
      UnifyLeaves(s[1..]);
    }
  }

  lemma {:induction false} RstripLeaves(line: string)
    requires Clean(line)
    ensures Rstrip(line) == line
  {
  }

  lemma {:induction false} CollapseIsCollapsed(lines: seq<string>)
    requires forall i :: 0 <= i < |lines| ==> '\n' !in lines[i] && '\r' !in lines[i]
    ensures Collapsed(Collapse(lines))
  {
    if lines != [] {
      CollapseIsCollapsed(lines[..|lines| - 1]);
      var line := Rstrip(lines[|lines| - 1]);
      assert Clean(line);
    }
  }

  lemma {:induction false} CollapseLeaves(lines: seq<string>)
    requires Collapsed(lines)
    ensures Collapse(lines) == lines
  {
    hide Rstrip, Collapsed, Clean;
    if lines != [] {
      CollapsedPrefix(lines);
      CollapseLeaves(lines[..|lines| - 1]);
      RstripLeaves(lines[|lines| - 1]);
    }
  }

  lemma {:induction false} DropLeadingKeeps(lines: seq<string>)
    requires Collapsed(lines)
    ensures Collapsed(DropLeading(lines))
    ensures DropLeading(lines) != [] ==> DropLeading(lines)[0] != ""
  {
    if lines != [] && lines[0] == "" {
      DropLeadingKeeps(lines[1..]);
    }
  }

  lemma {:induction false} DropTrailingKeeps(lines: seq<string>)
    requires Collapsed(lines) && (lines != [] ==> lines[0] != "")
    ensures Canonical(DropTrailing(lines))
  {
    if lines != [] && lines[|lines| - 1] == "" {
      DropTrailingKeeps(lines[..|lines| - 1]);
    }
  }

  /** Whatever the text, the lines it normalizes to are canonical: no CR, nothing to strip, no two blank
      lines in a row, none at either end. */
  lemma LinesAreCanonical(text: string)
    ensures Canonical(Lines(text))
  {
    var lines := Split(Unify(text));
    SplitLines(Unify(text));
    CollapseIsCollapsed(lines);
    DropLeadingKeeps(Collapse(lines));
    DropTrailingKeeps(DropLeading(Collapse(lines)));
  }

  /** Text made of canonical lines normalizes to those lines. */
  lemma CanonicalIsFixed(lines: seq<string>)
    requires Canonical(lines)
    ensures Lines(Join(lines)) == lines
  {
    JoinHasNoCr(lines);
    UnifyLeaves(Join(lines));
    if lines == [] {
      assert Split("") == [""];
      assert Collapse([""]) == [""] by { assert [""][..0] == []; }
    } else {
      SplitJoin(lines);
      CollapseLeaves(lines);
      hide Split, Join, Collapse, Collapsed, Unify;
      assert DropLeading(lines) == lines == DropTrailing(lines);
    }
  }

  /** Idempotence: what the registry hashes on write and the matcher hashes on read agree. */
  lemma NormalizeIsIdempotent(text: string)
    ensures Normalize(Normalize(text)) == Normalize(text)
  {
    LinesAreCanonical(text);
    CanonicalIsFixed(Lines(text));
  }

  // ------------------------------------------------------------ nothing else is lost

  /** Stripped lines in groups separated by runs of blank lines; the open group is the one the next line
      with content joins. */
  datatype Grouping = Grouping(closed: seq<seq<string>>, open: seq<string>)
  {
    function Add(line: string): Grouping
    {
      if line != "" then this.(open := open + [line])
      else if open == [] then this
      else Grouping(closed + [open], [])
    }

    function All(): seq<seq<string>>
    {
      if open == [] then closed else closed + [open]
    }
  }

  function Groups(lines: seq<string>): Grouping
  {
    if lines == [] then Grouping([], []) else Groups(lines[..|lines| - 1]).Add(Rstrip(lines[|lines| - 1]))
  }

  /** The paragraphs of a text: its lines with content, right-stripped, in order, cut where at least one
      blank line stands between two of them. */
  function Paragraphs(lines: seq<string>): seq<seq<string>>
  {
    Groups(lines).All()
  }

  lemma {:induction false} GroupsOfLast(a: seq<string>, line: string)
    ensures Groups(a + [line]) == Groups(a).Add(Rstrip(line))
  {
    hide Rstrip;
    var whole := a + [line];
    assert whole[..|whole| - 1] == a;
  }

  lemma CleanStrip(lines: seq<string>)
    requires forall i :: 0 <= i < |lines| ==> '\n' !in lines[i] && '\r' !in lines[i]
    requires lines != []
    ensures Rstrip(Rstrip(lines[|lines| - 1])) == Rstrip(lines[|lines| - 1])
  {
    RstripLeaves(Rstrip(lines[|lines| - 1]));
  }

  lemma {:induction false} CollapseGroups(lines: seq<string>)
    requires forall i :: 0 <= i < |lines| ==> '\n' !in lines[i] && '\r' !in lines[i]
    ensures Groups(Collapse(lines)) == Groups(lines)
    ensures var done := Collapse(lines);
            done != [] && done[|done| - 1] == "" ==> Groups(done).open == []
  {
    hide Rstrip;
    if lines != [] {
      var n := |lines| - 1;
      CollapseGroups(lines[..n]);
      CleanStrip(lines);
      GroupsOfLast(Collapse(lines[..n]), Rstrip(lines[n]));
    }
  }

  lemma {:induction false} GroupsFollow(a: seq<string>, b: seq<string>, more: seq<string>)
    requires Groups(a) == Groups(b)
    ensures Groups(a + more) == Groups(b + more)
    decreases |more|
  {
    hide Groups, Rstrip;
    if more == [] {
      assert a + more == a && b + more == b;
    } else {
      var n := |more| - 1;
      GroupsFollow(a, b, more[..n]);
      GroupsOfLast(a + more[..n], more[n]);
      GroupsOfLast(b + more[..n], more[n]);
      assert a + more == a + more[..n] + [more[n]] && b + more == b + more[..n] + [more[n]];
    }
  }

  lemma BlankGroups()
    ensures Groups([""]) == Groups([])
  {
    assert [""][..0] == [];
  }

  lemma {:induction false} DropLeadingGroups(lines: seq<string>)
    ensures Groups(DropLeading(lines)) == Groups(lines)
  {
    hide Groups;
    if lines != [] && lines[0] == "" {
      DropLeadingGroups(lines[1..]);
      BlankGroups();
      GroupsFollow([""], [], lines[1..]);
      assert lines == [""] + lines[1..] && [] + lines[1..] == lines[1..];
    }
  }

  lemma {:induction false} DropTrailingParagraphs(lines: seq<string>)
    ensures Paragraphs(DropTrailing(lines)) == Paragraphs(lines)
  {
    hide Groups;
    if lines != [] && lines[|lines| - 1] == "" {
      var n := |lines| - 1;
      DropTrailingParagraphs(lines[..n]);
      assert lines == lines[..n] + [""];
      GroupsOfLast(lines[..n], "");
    }
  }

  lemma ParagraphsOfLines(text: string)
    ensures Paragraphs(Lines(text)) == Paragraphs(Split(Unify(text)))
  {
    hide Split, Unify, Collapse, DropLeading, DropTrailing, Groups;
    var lines := Split(Unify(text));
    SplitLines(Unify(text));
    UnifyHasNoCr(text);
    CollapseGroups(lines);
    DropLeadingGroups(Collapse(lines));
    DropTrailingParagraphs(DropLeading(Collapse(lines)));
  }

  lemma UnifyHasNoCr(text: string)
    ensures '\r' !in Unify(text)
  {
  }

  /** Normalizing keeps the paragraphs: every line with content survives, in order, right-stripped and
      otherwise untouched, and blank lines separate exactly the lines they separated before. */
  lemma ParagraphsAreKept(text: string)
    ensures Paragraphs(Split(Normalize(text))) == Paragraphs(Split(Unify(text)))
  {
    hide Lines, Groups, Unify;
    ParagraphsOfLines(text);
    LinesAreCanonical(text);
    var out := Lines(text);
    if out == [] {
      assert Split("") == [""];
      BlankGroups();
    } else {
      SplitJoin(out);
    }
  }

  // ------------------------------------------------------------ which texts share a hash

  /** The closed groups written out again, each followed by a blank line. */
  function Flat(closed: seq<seq<string>>): seq<string>
  {
    if closed == [] then [] else Flat(closed[..|closed| - 1]) + closed[|closed| - 1] + [""]
  }

  lemma {:induction false} FlatAppend(closed: seq<seq<string>>, group: seq<string>)
    ensures Flat(closed + [group]) == Flat(closed) + group + [""]
  {
    assert (closed + [group])[..|closed|] == closed;
  }

  lemma CollapsedPrefix(lines: seq<string>)
    requires Collapsed(lines) && lines != []
    ensures var n := |lines| - 1;
            && Collapsed(lines[..n]) && Clean(lines[n])
            && (lines[n] == "" && n > 0 ==> lines[n - 1] != "")
  {
  }

  lemma {:induction false} FlatGroups(lines: seq<string>)
    requires Collapsed(lines) && (lines != [] ==> lines[0] != "")
    ensures Flat(Groups(lines).closed) + Groups(lines).open == lines
    ensures lines != [] && lines[|lines| - 1] != "" ==> Groups(lines).open != []
  {
    if lines != [] {
      hide Groups, Flat, Rstrip, Collapsed, Clean;
      var n := |lines| - 1;
      var g := Groups(lines[..n]);
      CollapsedPrefix(lines);
      FlatGroups(lines[..n]);
      RstripLeaves(lines[n]);
      assert lines == lines[..n] + [lines[n]];
      GroupsOfLast(lines[..n], lines[n]);
      FlatAppend(g.closed, g.open);
    }
  }

  /** Paragraphs written out again, with one blank line between two. */
  function Written(paragraphs: seq<seq<string>>): seq<string>
  {
    if paragraphs == [] then [] else Flat(paragraphs[..|paragraphs| - 1]) + paragraphs[|paragraphs| - 1]
  }

  lemma CanonicalFromParagraphs(lines: seq<string>)
    requires Canonical(lines)
    ensures lines == Written(Paragraphs(lines))
  {
    FlatGroups(lines);
    if lines != [] {
      hide Groups, Flat, Collapsed;
      var g := Groups(lines);
      assert (g.closed + [g.open])[..|g.closed|] == g.closed;
    }
  }

  lemma LinesFromParagraphs(text: string)
    ensures Lines(text) == Written(Paragraphs(Split(Unify(text))))
  {
    hide Lines, Paragraphs, Written, Split, Unify, Canonical;
    ParagraphsOfLines(text);
    LinesAreCanonical(text);
    CanonicalFromParagraphs(Lines(text));
  }

  /** Two texts are hashed alike exactly when they have the same paragraphs. */
  lemma SameNormalForm(a: string, b: string)
    ensures Normalize(a) == Normalize(b) <==> Paragraphs(Split(Unify(a))) == Paragraphs(Split(Unify(b)))
  {
    hide Lines, Paragraphs, Written, Split, Unify;
    ParagraphsAreKept(a);
    ParagraphsAreKept(b);
    LinesFromParagraphs(a);
    LinesFromParagraphs(b);
  }

  // ------------------------------------------------------------ line ends

  /** How a line of a text may end. */
  datatype End = Lf | Cr | CrLf

  function EndText(end: End): string
  {
    match end
    case Lf => "\n"
    case Cr => "\r"
    case CrLf => "\r\n"
  }

  /** The text with each of its line ends written the way `ends` says for its position. */
  function Ended(text: string, ends: nat -> End, at: nat := 0): string
  {
    if text == "" then ""
    else (if text[0] == '\n' then EndText(ends(at)) else [text[0]]) + Ended(text[1..], ends, at + 1)
  }

  /** No CR stands in front of an LF that ends another line. */
  predicate Unambiguous(text: string, ends: nat -> End, at: nat := 0)
  {
    forall i :: 0 <= i < |text| - 1 && text[i] == '\n' && text[i + 1] == '\n' && ends(at + i) == Cr ==>
                  ends(at + i + 1) != Lf
  }

  lemma CrLfFirst(c: char, s: string)
    requires !(c == '\r' && s != "" && s[0] == '\n')
    ensures UnifyCrLf([c] + s) == [c] + UnifyCrLf(s)
  {
    assert ([c] + s)[1..] == s;
  }

  lemma CrLfPair(s: string)
    ensures UnifyCrLf("\r\n" + s) == "\n" + UnifyCrLf(s) && UnifyCrLf("") == ""
  {
    assert ("\r\n" + s)[2..] == s;
  }

  lemma UnifyFirst(c: char, s: string)
    requires !(c == '\r' && s != "" && s[0] == '\n')
    ensures Unify([c] + s) == [if c == '\r' then '\n' else c] + Unify(s)
  {
    hide UnifyCrLf;
    CrLfFirst(c, s);
  }

  lemma UnifyPair(s: string)
    ensures Unify("\r\n" + s) == "\n" + Unify(s)
  {
    hide UnifyCrLf;
    CrLfPair(s);
  }

  predicate Merges(text: string, ends: nat -> End, at: nat)
  {
    |text| >= 2 && text[0] == text[1] == '\n' && ends(at) == Cr && ends(at + 1) == Lf
  }

  lemma UnambiguousFrom(text: string, ends: nat -> End, at: nat)
    requires text != ""
    ensures Unambiguous(text, ends, at) <==> !Merges(text, ends, at) && Unambiguous(text[1..], ends, at + 1)
  {
    if Unambiguous(text, ends, at) {
      forall i | 0 <= i < |text[1..]| - 1 && text[1..][i] == '\n' && text[1..][i + 1] == '\n' && ends(at + 1 + i) == Cr
        ensures ends(at + 1 + i + 1) != Lf
      {
        assert text[i + 1] == '\n' && text[i + 1 + 1] == '\n' && ends(at + (i + 1)) == Cr;
      }
    } else {
      var i :| 0 <= i < |text| - 1 && text[i] == '\n' && text[i + 1] == '\n'
               && ends(at + i) == Cr && ends(at + i + 1) == Lf;
      if i > 0 {
        var j := i - 1;
        assert text[1..][j] == '\n' && text[1..][j + 1] == '\n' && ends(at + 1 + j) == Cr && ends(at + 1 + j + 1) == Lf;
      }
    }
  }

  lemma EndedFirst(text: string, ends: nat -> End, at: nat)
    requires '\r' !in text && text != ""
    ensures var rest := Ended(text[1..], ends, at + 1);
            && (rest != "" && rest[0] == '\n' <==> |text| >= 2 && text[1] == '\n' && ends(at + 1) == Lf)
            && (Merges(text, ends, at) ==> Ended(text, ends, at) == "\r\n" + Ended(text[2..], ends, at + 2))
  {
    if |text| >= 2 {
      assert text[1..][1..] == text[2..];
    }
  }

  lemma UnifyNothing(ends: nat -> End, at: nat)
    ensures Unify("") == "" && Unambiguous("", ends, at)
  {
  }

  /** Line ends are all read alike: whichever of LF, CR and CRLF each line ends with, the text is the same,
      unless some CR meets the LF of the next line. */
  lemma {:induction false} LineEndsAreUnified(text: string, ends: nat -> End, at: nat)
    requires '\r' !in text
    ensures Unify(Ended(text, ends, at)) == text <==> Unambiguous(text, ends, at)
    ensures |Unify(Ended(text, ends, at))| <= |text|
    decreases |text|
  {
    hide Unify, Unambiguous;
    if text == "" {
      UnifyNothing(ends, at);
    } else {
      var rest := Ended(text[1..], ends, at + 1);
      UnambiguousFrom(text, ends, at);
      EndedFirst(text, ends, at);
      LineEndsAreUnified(text[1..], ends, at + 1);
      if Merges(text, ends, at) {
        LineEndsAreUnified(text[2..], ends, at + 2);
        UnifyPair(Ended(text[2..], ends, at + 2));
      } else if text[0] == '\n' && ends(at).CrLf? {
        UnifyPair(rest);
      } else {
        var c := if text[0] == '\n' then EndText(ends(at))[0] else text[0];
        assert Ended(text, ends, at) == [c] + rest;
        UnifyFirst(c, rest);
      }
    }
  }

  /** Windows and old Macintosh line ends are hashed like Unix ones. */
  lemma CrLfIsHashedAlike(text: string, end: End)
    requires '\r' !in text
    ensures Normalize(Ended(text, _ => end)) == Normalize(text)
  {
    hide Split, Ended, Unify;
    LineEndsAreUnified(text, _ => end, 0);
    assert Unify(text) == text by { UnifyLeavesText(text); }
  }

  lemma UnifyLeavesText(text: string)
    requires '\r' !in text
    ensures Unify(text) == text
  {
    UnifyLeaves(text);
  }

  // ------------------------------------------------------------ trailing blanks

  /** Space, tab, vertical tab and form feed, and nothing else. */
  predicate Blank(c: char)
  {
    c in {' ', '\t', '\U{000b}', '\U{000c}'}
  }

  predicate Blanks(run: string)
  {
    forall i :: 0 <= i < |run| ==> Blank(run[i])
  }

  lemma BlankIsInline(c: char)
    ensures Blank(c) <==> Inline(c)
  {
  }

  /** Blanks at the end of a line are stripped whatever the line holds. */
  lemma {:induction false} RstripPads(line: string, run: string)
    requires Blanks(run)
    ensures Rstrip(line + run) == Rstrip(line)
    decreases |run|
  {
    if run == "" {
      assert line + run == line;
    } else {
      var n := |run| - 1;
      BlankIsInline(run[n]);
      assert (line + run)[..|line| + n] == line + run[..n];
      RstripPads(line, run[..n]);
    }
  }

  /** Exactly the four blanks are stripped off the end of a line. */
  lemma RstripStops(line: string, run: string)
    requires Blanks(run) && (line != "" ==> !Blank(line[|line| - 1]))
    ensures Rstrip(line + run) == line
  {
    RstripPads(line, run);
  }

  lemma {:induction false} UnifyCrLfConcat(a: string, b: string)
    requires !(a != "" && a[|a| - 1] == '\r' && b != "" && b[0] == '\n')
    ensures UnifyCrLf(a + b) == UnifyCrLf(a) + UnifyCrLf(b)
    decreases |a|
  {
    hide UnifyCrLf;
    if a == "" {
      assert a + b == b;
      CrLfPair(b);
    } else if |a| >= 2 && a[0] == '\r' && a[1] == '\n' {
      var rest := a[2..];
      assert a == "\r\n" + rest && a + b == "\r\n" + (rest + b);
      CrLfPair(rest);
      CrLfPair(rest + b);
      UnifyCrLfConcat(rest, b);
    } else {
      var rest := a[1..];
      assert a == [a[0]] + rest && a + b == [a[0]] + (rest + b);
      CrLfFirst(a[0], rest);
      CrLfFirst(a[0], rest + b);
      UnifyCrLfConcat(rest, b);
    }
  }

  lemma UnifyConcat(a: string, b: string)
    requires !(a != "" && a[|a| - 1] == '\r' && b != "" && b[0] == '\n')
    ensures Unify(a + b) == Unify(a) + Unify(b)
  {
    hide UnifyCrLf;
    UnifyCrLfConcat(a, b);
  }

  /** Splitting what follows one more character. */
  lemma SplitFirst(c: char, s: string)
    ensures Split([c] + s) == if c == '\n' then [""] + Split(s) else Split(s)[0 := [c] + Split(s)[0]]
  {
    assert ([c] + s)[1..] == s;
  }

  /** Something put in front of a line end lengthens one line and leaves the others. */
  lemma {:induction false} SplitPads(a: string, run: string, rest: string) returns (k: nat)
    requires '\n' !in run && (rest != "" ==> rest[0] == '\n')
    ensures k < |Split(a + rest)|
    ensures Split(a + run + rest) == Split(a + rest)[k := Split(a + rest)[k] + run]
    decreases |a|
  {
    hide Split;
    if a == "" {
      k := 0;
      assert a + rest == rest && a + run + rest == run + rest;
      SplitPadsEmpty(run, rest);
    } else {
      var c, tail := a[0], a[1..];
      var j := SplitPads(tail, run, rest);
      assert a + rest == [c] + (tail + rest) && a + run + rest == [c] + (tail + run + rest);
      SplitFirst(c, tail + rest);
      SplitFirst(c, tail + run + rest);
      assert [c] + (Split(tail + rest)[0] + run) == [c] + Split(tail + rest)[0] + run;
      k := if c == '\n' then j + 1 else j;
    }
  }

  lemma SplitPadsEmpty(run: string, rest: string)
    requires '\n' !in run && (rest != "" ==> rest[0] == '\n')
    ensures Split(run + rest) == Split(rest)[0 := Split(rest)[0] + run]
  {
    if rest == "" {
      SplitLine(run, "");
      assert run + rest == run && "" + run == run;
    } else {
      SplitLine(run, rest[1..]);
      assert run + rest == run + "\n" + rest[1..] && "" + run == run;
    }
  }

  lemma {:induction false} CollapseStrips(a: seq<string>, b: seq<string>)
    requires |a| == |b| && forall i :: 0 <= i < |a| ==> Rstrip(a[i]) == Rstrip(b[i])
    ensures Collapse(a) == Collapse(b)
  {
    hide Rstrip;
    if a != [] {
      CollapseStrips(a[..|a| - 1], b[..|b| - 1]);
    }
  }

  /** Blanks at the end of any line, the last included, do not change what is hashed. */
  lemma BlanksAreHashedAlike(a: string, run: string, rest: string)
    requires Blanks(run) && (a != "" ==> a[|a| - 1] != '\r') && (rest != "" ==> rest[0] == '\n' || rest[0] == '\r')
    ensures Normalize(a + run + rest) == Normalize(a + rest)
  {
    hide Unify, Split, Collapse, DropLeading, DropTrailing, Join, Rstrip, Blanks;
    BlanksStay(run);
    UnifyConcat(a, rest);
    UnifyConcat(a, run);
    UnifyConcat(a + run, rest);
    UnifyStarts(rest);
    var k := SplitPads(Unify(a), run, Unify(rest));
    var l := Split(Unify(a) + Unify(rest));
    RstripPads(l[k], run);
    CollapseStrips(l[k := l[k] + run], l);
  }

  lemma BlanksStay(run: string)
    requires Blanks(run)
    ensures '\n' !in run && '\r' !in run && Unify(run) == run
  {
    UnifyLeaves(run);
  }

  lemma UnifyStarts(rest: string)
    requires rest != "" ==> rest[0] == '\n' || rest[0] == '\r'
    ensures Unify(rest) != "" ==> Unify(rest)[0] == '\n'
  {
  }
}
