/**
 * Pagination in the static site generator: the content is split into lines
 * (with the line-ending rules of Rust's `str::lines`) and the lines are
 * grouped into pages of at most `itemsPerPage`, each page joined with `\n`.
 */
module Ssg {

  // ---------------------------------------------------------------------------
  // Lines
  // ---------------------------------------------------------------------------

  /** Position of the first `\n` in `s`, or `|s|` when there is none. */
  function NewlineAt(s: string): (i: nat)
    ensures i <= |s|
    ensures forall j :: 0 <= j < i ==> s[j] != '\n'
    ensures i < |s| ==> s[i] == '\n'
  {
    if |s| == 0 || s[0] == '\n' then 0 else 1 + NewlineAt(s[1..])
  }

  /** One line as `str::lines` yields it: the `\r` of a `\r\n` ending is dropped. */
  function StripCarriageReturn(line: string, endedByNewline: bool): string
  {
    if endedByNewline && |line| > 0 && line[|line| - 1] == '\r' then line[..|line| - 1] else line
  }

  /** The lines of `s`: split after each `\n`, with no empty last line after a
      final `\n`; each line loses its `\n` and the `\r` just before it. */
  function Lines(s: string): (ls: seq<string>)
    ensures |ls| == 0 <==> |s| == 0
    decreases |s|
  {
    if |s| == 0 then []
    else
      var i := NewlineAt(s);
      var line := StripCarriageReturn(s[..i], i < |s|);
      if i == |s| then [line] else [line] + Lines(s[i + 1..])
  }

  /** No line holds a `\n`. */
  lemma {:induction false} LinesHaveNoNewline(s: string)
    ensures forall k :: 0 <= k < |Lines(s)| ==> '\n' !in Lines(s)[k]
    decreases |s|
  {
    if |s| > 0 {
      var i := NewlineAt(s);
      var line := StripCarriageReturn(s[..i], i < |s|);
      assert forall j :: 0 <= j < |line| ==> line[j] == s[j];
      if i < |s| {
        LinesHaveNoNewline(s[i + 1..]);
        assert Lines(s) == [line] + Lines(s[i + 1..]);
      }
    }
  }

  /** The lines joined with `\n` between them, as `join("\n")` does. */
  function Join(lines: seq<string>): string
  {
    if |lines| == 0 then ""
    else if |lines| == 1 then lines[0]
    else lines[0] + "\n" + Join(lines[1..])
  }

  // ---------------------------------------------------------------------------
  // Pages
  // ---------------------------------------------------------------------------

  /** The lines grouped front to back into runs of `k`, the last run shorter. */
  function Chunks(lines: seq<string>, k: nat): (cs: seq<seq<string>>)
    requires k > 0
    decreases |lines|
  {
    if |lines| == 0 then []
    else
      var n := if k < |lines| then k else |lines|;
      [lines[..n]] + Chunks(lines[n..], k)
  }

  /** The groups laid end to end. */
  function Flatten(groups: seq<seq<string>>): seq<string>
  {
    if |groups| == 0 then [] else groups[0] + Flatten(groups[1..])
  }

  /** Each group joined into the text of one page. */
  function JoinAll(groups: seq<seq<string>>): (pages: seq<string>)
    ensures |pages| == |groups|
    ensures forall i :: 0 <= i < |groups| ==> pages[i] == Join(groups[i])
  {
    if |groups| == 0 then [] else [Join(groups[0])] + JoinAll(groups[1..])
  }

  /** The text of each page when the lines are grouped `k` to a page; no
      pages when `k == 0`, the one size for which grouping is undefined. */
  function Pages(lines: seq<string>, k: nat): seq<string>
  {
    if k == 0 then [] else JoinAll(Chunks(lines, k))
  }

  /** Splits the content into pages of at most `itemsPerPage` lines.  With
      `itemsPerPage == 0` and some content the source loops for ever, so that
      case is excluded; with no lines there are no pages whatever the size. */
  method PaginateContent(content: string, itemsPerPage: nat) returns (pages: seq<string>)
    requires itemsPerPage > 0 || |Lines(content)| == 0
    ensures pages == Pages(Lines(content), itemsPerPage)
    ensures |Lines(content)| == 0 ==> pages == []
  {
    pages := [];
    var lines := Lines(content);
    var total := |lines|;
    var start := 0;
    while start < total
      invariant start <= total
      invariant pages + Pages(lines[start..], itemsPerPage) == Pages(lines, itemsPerPage)
      decreases total - start
    {
      var end := if start + itemsPerPage < total then start + itemsPerPage else total;
      var page := Join(lines[start..end]);
      NextPage(lines, start, end, itemsPerPage);
      MovePage(pages, page, Pages(lines[end..], itemsPerPage), Pages(lines, itemsPerPage));
      pages := pages + [page];
      start := end;
    }
    assert lines[start..] == [];
  }

  /** The pages from line `start` on are the page of lines `start..end`
      followed by the pages from line `end` on. */
  lemma NextPage(lines: seq<string>, start: nat, end: nat, k: nat)
    requires k > 0 && start < end <= |lines|
    requires end == if start + k < |lines| then start + k else |lines|
    ensures Pages(lines[start..], k) == [Join(lines[start..end])] + Pages(lines[end..], k)
  {
    var rest := lines[start..];
    var page := lines[start..end];
    var later := Chunks(lines[end..], k);
    assert rest[end - start..] == lines[end..];
    assert rest[..end - start] == page;
    assert Chunks(rest, k) == [page] + later;
    JoinAllCons(page, later);
  }

  /** Moving the next page from the pages still to come to those made. */
  lemma MovePage(made: seq<string>, page: string, later: seq<string>, all: seq<string>)
    requires made + ([page] + later) == all
    ensures (made + [page]) + later == all
  {
  }

  lemma JoinAllCons(group: seq<string>, groups: seq<seq<string>>)
    ensures JoinAll([group] + groups) == [Join(group)] + JoinAll(groups)
  {
    assert ([group] + groups)[1..] == groups;
  }

  // ---------------------------------------------------------------------------
  // Properties
  // ---------------------------------------------------------------------------

  /** Every page holds between 1 and `k` lines, and all but the last hold
      exactly `k`. */
  lemma {:induction false} ChunkSizes(lines: seq<string>, k: nat)
    requires k > 0
    ensures var cs := Chunks(lines, k);
            && (forall i :: 0 <= i < |cs| ==> 1 <= |cs[i]| <= k)
            && (forall i :: 0 <= i < |cs| - 1 ==> |cs[i]| == k)
    decreases |lines|
  {
    if |lines| > 0 {
      var n := if k < |lines| then k else |lines|;
      ChunkSizes(lines[n..], k);
      var cs := Chunks(lines, k);
      assert cs[1..] == Chunks(lines[n..], k);
    }
  }

  /** Laying the pages' line groups end to end gives back the lines. */
  lemma {:induction false} ChunksFlatten(lines: seq<string>, k: nat)
    requires k > 0
    ensures Flatten(Chunks(lines, k)) == lines
    decreases |lines|
  {
    if |lines| > 0 {
      var n := if k < |lines| then k else |lines|;
      ChunksFlatten(lines[n..], k);
      FlattenCons(lines[..n], Chunks(lines[n..], k));
      assert lines[..n] + lines[n..] == lines;
    }
  }

  lemma FlattenCons(group: seq<string>, groups: seq<seq<string>>)
    ensures Flatten([group] + groups) == group + Flatten(groups)
  {
    assert ([group] + groups)[1..] == groups;
  }

  /** The page count is the number of lines divided by `k`, rounded up: the
      pages before the last cannot hold all lines, and all pages can. */
  lemma {:induction false} ChunkCount(lines: seq<string>, k: nat)
    requires k > 0
    ensures var count := |Chunks(lines, k)|;
            (count - 1) * k < |lines| <= count * k
    decreases |lines|
  {
    if |lines| > 0 {
      var n := if k < |lines| then k else |lines|;
      var rest := |Chunks(lines[n..], k)|;
      assert |Chunks(lines, k)| == 1 + rest;
      ChunkCount(lines[n..], k);
      if k < |lines| {
        assert (rest - 1) * k < |lines| - k <= rest * k;
        assert (1 + rest) * k == rest * k + k;
      }
    }
  }

  /** Joining a line in front of a non-empty list puts a `\n` between. */
  lemma JoinCons(line: string, lines: seq<string>)
    requires |lines| > 0
    ensures Join([line] + lines) == line + "\n" + Join(lines)
  {
    assert ([line] + lines)[1..] == lines;
  }

  /** The `\n` that `content` ends with, if any. */
  function FinalNewline(content: string): string
  {
    if |content| > 0 && content[|content| - 1] == '\n' then "\n" else ""
  }

  /** Without `\r`, the lines are exactly the pieces between the newlines:
      joining them with `\n` gives the content back, less a final `\n`. */
  lemma {:induction false} LinesJoin(s: string)
    requires '\r' !in s
    ensures Join(Lines(s)) + FinalNewline(s) == s
    decreases |s|
  {
    if |s| > 0 {
      var i := NewlineAt(s);
      if i + 1 < |s| {
        SuffixWithoutCr(s, i + 1);
        LinesJoin(s[i + 1..]);
        LinesJoinStep(s);
      } else {
        LinesJoinOneLine(s);
      }
    }
  }

  /** Content holding at most a final `\n` is one line. */
  lemma LinesJoinOneLine(s: string)
    requires '\r' !in s && |s| > 0 && NewlineAt(s) + 1 >= |s|
    ensures Join(Lines(s)) + FinalNewline(s) == s
  {
    var i := NewlineAt(s);
    if i == |s| {
      LinesWithoutNewline(s);
      assert s[|s| - 1] != '\n';
    } else {
      LinesBeforeFinalNewline(s);
      SplitAtNewline(s, i);
    }
  }

  lemma LinesWithoutNewline(s: string)
    requires '\r' !in s && |s| > 0 && NewlineAt(s) == |s|
    ensures Lines(s) == [s]
  {
    KeepsLineWithoutCr(s, |s|);
    assert s[..|s|] == s;
  }

  lemma LinesBeforeFinalNewline(s: string)
    requires '\r' !in s && |s| > 0 && NewlineAt(s) == |s| - 1
    ensures Lines(s) == [s[..|s| - 1]]
  {
    KeepsLineWithoutCr(s, |s| - 1);
  }

  /** The first line, a `\n`, then the rest of the content. */
  lemma LinesJoinStep(s: string)
    requires '\r' !in s && |s| > 0 && NewlineAt(s) + 1 < |s|
    requires var t := s[NewlineAt(s) + 1..]; Join(Lines(t)) + FinalNewline(t) == t
    ensures Join(Lines(s)) + FinalNewline(s) == s
  {
    var i := NewlineAt(s);
    LinesFirst(s);
    SplitAtNewline(s, i);
    JoinFront(s[..i], Lines(s[i + 1..]), s[i + 1..], s);
  }

  /** Content without `\r` starts with its first line, kept whole. */
  lemma LinesFirst(s: string)
    requires '\r' !in s && |s| > 0 && NewlineAt(s) < |s|
    ensures Lines(s) == [s[..NewlineAt(s)]] + Lines(s[NewlineAt(s) + 1..])
  {
    KeepsLineWithoutCr(s, NewlineAt(s));
  }

  /** Putting a line and a `\n` in front of text that its lines rebuild. */
  lemma JoinFront(line: string, rest: seq<string>, t: string, s: string)
    requires |rest| > 0 && |t| > 0
    requires Join(rest) + FinalNewline(t) == t
    requires s == line + "\n" + t
    ensures Join([line] + rest) + FinalNewline(s) == s
  {
    JoinCons(line, rest);
    assert s[|s| - 1] == t[|t| - 1];
    calc {
      Join([line] + rest) + FinalNewline(s);
      line + "\n" + (Join(rest) + FinalNewline(t));
    }
  }

  lemma SplitAtNewline(s: string, i: nat)
    requires i < |s| && s[i] == '\n'
    ensures s == s[..i] + "\n" + s[i + 1..]
  {
  }

  lemma KeepsLineWithoutCr(s: string, i: nat)
    requires '\r' !in s && i <= |s|
    ensures StripCarriageReturn(s[..i], i < |s|) == s[..i]
  {
    if i > 0 {
      assert s[..i][i - 1] == s[i - 1];
    }
  }

  lemma SuffixWithoutCr(s: string, j: nat)
    requires '\r' !in s && j <= |s|
    ensures '\r' !in s[j..]
  {
    forall k | 0 <= k < |s| - j ensures s[j..][k] != '\r' {
      assert s[j..][k] == s[j + k];
    }
  }

  /** Lists of lines without `\n` that join to the same text are equal, so
      with `LinesJoin` the lines are the only such split of the content. */
  lemma {:induction false} JoinInjective(a: seq<string>, b: seq<string>)
    requires |a| > 0 && |b| > 0
    requires forall k :: 0 <= k < |a| ==> '\n' !in a[k]
    requires forall k :: 0 <= k < |b| ==> '\n' !in b[k]
    requires Join(a) == Join(b)
    ensures a == b
    decreases |a|
  {
    if |a| == 1 && |b| == 1 {
    } else if |a| == 1 || |b| == 1 {
      // one side holds a `\n` and the other does not
      assert false;
    } else {
      var text := Join(a);
      NewlineAtJoin(a[0], Join(a[1..]));
      NewlineAtJoin(b[0], Join(b[1..]));
      assert a[0] == text[..|a[0]|] == b[0];
      assert Join(a[1..]) == text[|a[0]| + 1..] == Join(b[1..]);
      JoinInjective(a[1..], b[1..]);
      assert a == [a[0]] + a[1..] && b == [b[0]] + b[1..];
    }
  }

  /** Without `\r`, the lines are the one split of the content into
      `\n`-free pieces that joins back to it. */
  lemma LinesUnique(s: string, pieces: seq<string>)
    requires '\r' !in s && |s| > 0 && |pieces| > 0
    requires forall k :: 0 <= k < |pieces| ==> '\n' !in pieces[k]
    requires Join(pieces) + FinalNewline(s) == s
    ensures pieces == Lines(s)
  {
    LinesJoin(s);
    LinesHaveNoNewline(s);
    CancelSuffix(Join(pieces), Join(Lines(s)), FinalNewline(s));
    JoinInjective(pieces, Lines(s));
  }

  lemma CancelSuffix(a: string, b: string, f: string)
    requires a + f == b + f
    ensures a == b
  {
    assert a == (a + f)[..|a|];
    assert b == (b + f)[..|b|];
  }

  lemma NewlineAtJoin(x: string, y: string)
    requires '\n' !in x
    ensures NewlineAt(x + "\n" + y) == |x|
  {
    var s := x + "\n" + y;
    assert s[|x|] == '\n';
    assert forall j :: 0 <= j < |x| ==> s[j] == x[j];
  }

  /** A trailing `\n` adds no empty last line. */
  lemma TrailingNewlineExample()
    ensures Lines("a\nb\n") == ["a", "b"]
  {
    var s1 := "a\nb\n";
    assert NewlineAt(s1) == 1 && s1[..1] == "a" && s1[2..] == "b\n";
    var s2 := "b\n";
    assert NewlineAt(s2) == 1 && s2[..1] == "b" && s2[2..] == "";
    assert Lines(s2) == ["b"];
  }

  /** A `\r\n` ending loses its `\r`, and a blank line in the middle is kept. */
  lemma CrLfBlankLineExample()
    ensures Lines("a\r\n\nb") == ["a", "", "b"]
  {
    var t1 := "a\r\n\nb";
    assert NewlineAt(t1) == 2 && t1[..2] == "a\r" && t1[3..] == "\nb";
    assert StripCarriageReturn("a\r", true) == "a" by {
      assert "a\r"[..1] == "a";
    }
    var t2 := "\nb";
    assert NewlineAt(t2) == 0 && t2[..0] == "" && t2[1..] == "b";
    var t3 := "b";
    assert NewlineAt(t3) == 1 && t3[..1] == "b";
    assert Lines(t3) == ["b"];
    assert Lines(t2) == ["", "b"];
  }

  /** A `\r` without a following `\n` stays in the line. */
  lemma LoneCarriageReturnExample()
    ensures Lines("a\r") == ["a\r"]
  {
    var u := "a\r";
    assert NewlineAt(u) == 2 && u[..2] == u;
  }

  /** Three lines at two per page give two pages. */
  lemma PaginationExample()
    ensures JoinAll(Chunks(["a", "b", "c"], 2)) == ["a\nb", "c"]
  {
    var lines := ["a", "b", "c"];
    assert lines[..2] == ["a", "b"] && lines[2..] == ["c"];
    assert Chunks(["c"], 2) == [["c"]] by {
      assert ["c"][..1] == ["c"] && ["c"][1..] == [];
    }
    assert Chunks(lines, 2) == [["a", "b"], ["c"]];
    assert ["a", "b"][1..] == ["b"];
    assert Join(["a", "b"]) == "a\nb";
  }
}
