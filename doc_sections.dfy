/**
 * The two pieces the generator cuts out of a reference page before it
 * parses anything: the synopsis, rebuilt by scanning backwards from the
 * DESCRIPTION heading, and the description, turned into a doc comment.
 */
module DocSections {
  import opened JsString

  const DescriptionMarker: string := "DESCRIPTION"
  const ReturnMarker: string := "RETURN VALUE"

  /** `line.trim() === ""`: the scan stops here. */
  predicate Blank(line: string)
  {
    Trim(line) == ""
  }

  /** `line.trim().match(/^[A-Z]/)`: a section heading, skipped with the line above it. */
  predicate Heading(line: string)
  {
    StartsUpper(Trim(line))
  }

  // ---------------------------------------------------------------------
  // The synopsis, rebuilt backwards

  /**
   * What the backward scan collects from index `i` down: it stops at a
   * blank line, jumps over a heading and the line above it, and puts every
   * other line, followed by a space, in front of what it has so far.
   */
  function Gathered(lines: seq<string>, i: int): string
    requires i < |lines|
    decreases i + 2
  {
    if i < 0 then ""
    else if Blank(lines[i]) then ""
    else if Heading(lines[i]) then Gathered(lines, i - 2)
    else Gathered(lines, i - 1) + lines[i] + " "
  }

  /** The loop of the generator that rebuilds `realSynopsis` from the lines above DESCRIPTION. */
  method ReconstructSynopsis(lines: seq<string>, descriptionLine: int) returns (realSynopsis: string)
    requires descriptionLine - 2 < |lines|
    ensures realSynopsis == Gathered(lines, descriptionLine - 2)
    ensures descriptionLine < 2 ==> realSynopsis == ""
  {
    realSynopsis := "";
    var i := descriptionLine - 2;
    while i >= 0
      invariant i < |lines|
      invariant Gathered(lines, descriptionLine - 2) == Gathered(lines, i) + realSynopsis
      decreases i + 2
    {
      if Trim(lines[i]) == "" {
        break;
      }
      if StartsUpper(Trim(lines[i])) {
        i := i - 2;
        continue;
      }
      realSynopsis := lines[i] + " " + realSynopsis;
      i := i - 1;
    }
  }

  /** Each line followed by one space, in order. */
  function Spaced(xs: seq<string>): string
  {
    if xs == [] then "" else xs[0] + " " + Spaced(xs[1..])
  }

  /** The indices the scan keeps, in ascending order, none above `i`. */
  function Picked(lines: seq<string>, i: int): (r: seq<int>)
    requires i < |lines|
    ensures forall k :: 0 <= k < |r| ==> 0 <= r[k] <= i
    ensures forall k, l :: 0 <= k < l < |r| ==> r[k] < r[l]
    decreases i + 2
  {
    if i < 0 then []
    else if Blank(lines[i]) then []
    else if Heading(lines[i]) then Picked(lines, i - 2)
    else Picked(lines, i - 1) + [i]
  }

  /** The lines at the given indices. */
  function Select(lines: seq<string>, ks: seq<int>): (r: seq<string>)
    requires forall k :: 0 <= k < |ks| ==> 0 <= ks[k] < |lines|
    ensures |r| == |ks| && forall k :: 0 <= k < |ks| ==> r[k] == lines[ks[k]]
  {
    if ks == [] then [] else [lines[ks[0]]] + Select(lines, ks[1..])
  }

  lemma SelectSnoc(lines: seq<string>, ks: seq<int>, j: int)
    requires forall k :: 0 <= k < |ks| ==> 0 <= ks[k] < |lines|
    requires 0 <= j < |lines|
    ensures Select(lines, ks + [j]) == Select(lines, ks) + [lines[j]]
  {
  }

  lemma {:induction false} SpacedSnoc(xs: seq<string>, x: string)
    ensures Spaced(xs + [x]) == Spaced(xs) + x + " "
    decreases |xs|
  {
    if xs != [] {
      assert (xs + [x])[1..] == xs[1..] + [x];
      SpacedSnoc(xs[1..], x);
    }
  }

  /**
   * The rebuilt synopsis is the kept lines in top-to-bottom order, each
   * followed by one space.
   */
  lemma {:induction false} GatheredIsSelection(lines: seq<string>, i: int)
    requires i < |lines|
    ensures Gathered(lines, i) == Spaced(Select(lines, Picked(lines, i)))
    decreases i + 2
  {
    if i >= 0 && !Blank(lines[i]) {
      if Heading(lines[i]) {
        GatheredIsSelection(lines, i - 2);
      } else {
        GatheredIsSelection(lines, i - 1);
        var ks := Picked(lines, i - 1);
        assert Picked(lines, i) == ks + [i];
        SelectSnoc(lines, ks, i);
        SpacedSnoc(Select(lines, ks), lines[i]);
      }
    }
  }

  /** A kept line is neither blank nor a heading. */
  lemma {:induction false} PickedLines(lines: seq<string>, i: int)
    requires i < |lines|
    ensures forall k :: 0 <= k < |Picked(lines, i)| ==>
      !Blank(lines[Picked(lines, i)[k]]) && !Heading(lines[Picked(lines, i)[k]])
    decreases i + 2
  {
    if i >= 0 && !Blank(lines[i]) {
      if Heading(lines[i]) {
        PickedLines(lines, i - 2);
      } else {
        PickedLines(lines, i - 1);
      }
    }
  }

  /**
   * The scan that starts at `j` examines line `i`: it walks up from `j`
   * without stopping at a blank line, stepping over one line below a plain
   * line and over two below a heading, and lands on `i`.
   */
  predicate Reaches(lines: seq<string>, j: int, i: int)
    requires j < |lines|
    decreases j + 2
  {
    if j == i then true
    else if j < i || j < 0 || Blank(lines[j]) then false
    else if Heading(lines[j]) then Reaches(lines, j - 2, i)
    else Reaches(lines, j - 1, i)
  }

  /** Whatever the scan keeps on its way down to a line it reaches lies below that line. */
  lemma {:induction false} PickedAboveReached(lines: seq<string>, j: int, i: int)
    requires j < |lines| && Reaches(lines, j, i)
    ensures forall k :: k in Picked(lines, j) ==> k > i || k in Picked(lines, i)
    decreases j + 2
  {
    if j != i {
      if Heading(lines[j]) {
        PickedAboveReached(lines, j - 2, i);
      } else {
        PickedAboveReached(lines, j - 1, i);
      }
    }
  }

  /** The scan from `j` keeps everything the scan from a line it reaches keeps. */
  lemma {:induction false} PickedInRest(lines: seq<string>, j: int, i: int)
    requires j < |lines| && Reaches(lines, j, i)
    ensures forall k :: k in Picked(lines, i) ==> k in Picked(lines, j)
    decreases j + 2
  {
    if j != i {
      if Heading(lines[j]) {
        PickedInRest(lines, j - 2, i);
      } else {
        PickedInRest(lines, j - 1, i);
      }
    }
  }

  /** A plain line the scan reaches, from wherever it starts, is kept. */
  lemma ReachedPlainIsPicked(lines: seq<string>, j: int, i: int)
    requires 0 <= i && j < |lines| && Reaches(lines, j, i)
    requires !Blank(lines[i]) && !Heading(lines[i])
    ensures i in Picked(lines, j)
  {
    PickedInRest(lines, j, i);
    assert Picked(lines, i) == Picked(lines, i - 1) + [i];
  }

  /** Conversely, every line the scan keeps is one it reaches. */
  lemma {:induction false} PickedIsReached(lines: seq<string>, j: int)
    requires j < |lines|
    ensures forall k :: k in Picked(lines, j) ==> Reaches(lines, j, k)
    decreases j + 2
  {
    if j >= 0 && !Blank(lines[j]) {
      if Heading(lines[j]) {
        PickedIsReached(lines, j - 2);
        forall k | k in Picked(lines, j) ensures Reaches(lines, j, k) {
          assert k <= j - 2;
        }
      } else {
        PickedIsReached(lines, j - 1);
        forall k | k in Picked(lines, j) ensures Reaches(lines, j, k) {
          assert k in Picked(lines, j - 1) || k == j;
        }
      }
    }
  }

  /**
   * A heading the scan reaches, from wherever it starts, is dropped together
   * with the line above it.
   */
  lemma HeadingDropsLineAbove(lines: seq<string>, j: int, i: int)
    requires 0 <= i && j < |lines| && Reaches(lines, j, i)
    requires !Blank(lines[i]) && Heading(lines[i])
    ensures i !in Picked(lines, j) && i - 1 !in Picked(lines, j)
  {
    PickedAboveReached(lines, j, i);
    var ks := Picked(lines, i);
    assert ks == Picked(lines, i - 2);
    forall k | 0 <= k < |ks| ensures ks[k] <= i - 2 { }
  }

  /**
   * A heading directly below another heading is jumped over unexamined, so
   * the line above it is kept: from the heading `C` on line 3, the scan
   * steps to line 1 and keeps `a`, although the heading `B` on line 2 sits
   * right below it.
   */
  lemma HeadingJumpedOver()
    ensures var lines := ["", "a", "B", "C", "x", "DESCRIPTION"];
      && Heading(lines[2]) && !Reaches(lines, 3, 2)
      && Picked(lines, 3) == [1] && Gathered(lines, 3) == "a "
  {
    var lines := ["", "a", "B", "C", "x", "DESCRIPTION"];
    OneCharLine('a');
    OneCharLine('B');
    OneCharLine('C');
    assert lines[1] == ['a'] && lines[2] == ['B'] && lines[3] == ['C'];
    assert Picked(lines, 3) == Picked(lines, 1);
    assert Gathered(lines, 3) == Gathered(lines, 1);
  }

  /** A line of one visible character is not blank, and is a heading when that character is a capital. */
  lemma OneCharLine(c: char)
    requires !IsSpace(c)
    ensures !Blank([c]) && (Heading([c]) <==> 'A' <= c <= 'Z')
  {
    TrimTrimmed([c]);
  }

  /**
   * Nothing above a blank line that the scan reaches is kept: it stops
   * there. A blank line directly above a heading is jumped over instead.
   */
  lemma {:induction false} PickedBelowBlank(lines: seq<string>, i: int, b: int)
    requires b <= i < |lines| && 0 <= b && Blank(lines[b])
    requires b < i ==> !Heading(lines[b + 1])
    ensures forall k :: 0 <= k < |Picked(lines, i)| ==> Picked(lines, i)[k] > b
    decreases i + 2
  {
    if i > b && !Blank(lines[i]) {
      if Heading(lines[i]) {
        PickedBelowBlank(lines, i - 2, b);
        assert Picked(lines, i) == Picked(lines, i - 2);
      } else {
        PickedBelowBlank(lines, i - 1, b);
        var ks := Picked(lines, i - 1);
        assert Picked(lines, i) == ks + [i];
        forall k | 0 <= k < |ks| + 1 ensures (ks + [i])[k] > b {
          if k < |ks| { assert (ks + [i])[k] == ks[k]; }
        }
      }
    } else {
      assert Picked(lines, i) == [];
    }
  }

  /** The rebuilt synopsis is empty or ends in the space that follows its last line. */
  lemma GatheredEndsInSpace(lines: seq<string>, i: int)
    requires i < |lines|
    ensures var g := Gathered(lines, i); g == "" || g[|g| - 1] == ' '
  {
    if i >= 0 && !Blank(lines[i]) && Heading(lines[i]) {
      GatheredEndsInSpace(lines, i - 2);
    }
  }

  /**
   * A block of plain lines under a blank line (or the top of the page) is
   * rebuilt as its lines in order, each followed by one space.
   */
  lemma {:induction false} PlainBlock(lines: seq<string>, top: int, i: int)
    requires 0 <= top <= i + 1 && i < |lines|
    requires top == 0 || Blank(lines[top - 1])
    requires forall k :: top <= k <= i ==> !Blank(lines[k]) && !Heading(lines[k])
    ensures Gathered(lines, i) == Spaced(lines[top..i + 1])
    decreases i + 2
  {
    if i + 1 == top {
      if top > 0 {
        assert Blank(lines[i]);
      }
    } else {
      PlainBlock(lines, top, i - 1);
      assert lines[top..i + 1] == lines[top..i] + [lines[i]];
      SpacedSnoc(lines[top..i], lines[i]);
    }
  }

  /** A character that no line holds, other than the space, is not in the rebuilt synopsis. */
  lemma {:induction false} GatheredLacks(lines: seq<string>, i: int, c: char)
    requires i < |lines| && c != ' '
    requires forall k :: 0 <= k < |lines| ==> c !in lines[k]
    ensures c !in Gathered(lines, i)
    decreases i + 2
  {
    if i >= 0 && !Blank(lines[i]) {
      if Heading(lines[i]) {
        GatheredLacks(lines, i - 2, c);
      } else {
        GatheredLacks(lines, i - 1, c);
      }
    }
  }

  // ---------------------------------------------------------------------
  // The description, as a doc comment

  const CommentOpen: string := "/**"
  const InterfaceLineBreak: string := "\n * "
  const InterfaceCommentClose: string := "\n*/"
  const MethodLineBreak: string := "\n   * "
  const MethodCommentClose: string := "\n  */"

  /**
   * The lines strictly between the line after DESCRIPTION and the line
   * before RETURN VALUE, joined by `lineBreak`, with every backslash
   * removed and every star-slash escaped as star-backslash-slash.
   */
  function DescriptionBody(lines: seq<string>, descriptionLine: int, responseLine: int, lineBreak: string): string
  {
    var text := Join(Slice(lines, descriptionLine + 2, responseLine - 1), lineBreak);
    ReplaceAll(ReplaceAll(text, "\\", ""), "*/", "*\\/")
  }

  /** `descriptionLines`, the comment above the request interface. */
  function DescriptionComment(lines: seq<string>, descriptionLine: int, responseLine: int): string
  {
    CommentOpen + DescriptionBody(lines, descriptionLine, responseLine, InterfaceLineBreak) + InterfaceCommentClose
  }

  /** `methodDescriptionLines`, the comment above the client method, indented one level. */
  function MethodDescriptionComment(lines: seq<string>, descriptionLine: int, responseLine: int): string
  {
    CommentOpen + DescriptionBody(lines, descriptionLine, responseLine, MethodLineBreak) + MethodCommentClose
  }

  /** The escaped body never holds a star-slash, whatever the page says. */
  lemma BodyHasNoCommentClose(lines: seq<string>, descriptionLine: int, responseLine: int, lineBreak: string)
    ensures NoCommentClose(DescriptionBody(lines, descriptionLine, responseLine, lineBreak))
  {
    var text := Join(Slice(lines, descriptionLine + 2, responseLine - 1), lineBreak);
    EscapeRemovesCommentClose(ReplaceAll(text, "\\", ""));
  }

  /**
   * The comment is closed only by its own closing mark exactly when the
   * body does not start with a slash: a body starting with a slash turns the
   * opening slash-star-star into a whole, empty comment.
   */
  lemma CommentClosesOnlyAtEnd(body: string, close: string)
    requires NoCommentClose(body)
    requires close == InterfaceCommentClose || close == MethodCommentClose
    ensures var c := CommentOpen + body + close;
      NoCommentClose(c[..|c| - 1]) <==> (body == "" || body[0] != '/')
  {
    var c := CommentOpen + body + close;
    var d := c[..|c| - 1];
    if body != [] && body[0] == '/' {
      assert d[2] == '*' && d[3] == '/';
    } else {
      forall i | 0 <= i < |d| - 1 ensures !(d[i] == '*' && d[i + 1] == '/') {
        if 3 <= i && i + 1 < 3 + |body| {
          assert d[i] == body[i - 3] && d[i + 1] == body[i - 2];
        } else if i + 1 >= 3 + |body| {
          assert d[i + 1] == close[i + 1 - 3 - |body|];
        }
      }
    }
  }

  /** The generated comments: open, escaped body, close, and no early close unless the body starts with `/`. */
  lemma DescriptionCommentShape(lines: seq<string>, descriptionLine: int, responseLine: int)
    ensures var body := DescriptionBody(lines, descriptionLine, responseLine, InterfaceLineBreak);
      var c := DescriptionComment(lines, descriptionLine, responseLine);
      c == CommentOpen + body + InterfaceCommentClose
      && NoCommentClose(body)
      && (NoCommentClose(c[..|c| - 1]) <==> (body == "" || body[0] != '/'))
    ensures var body := DescriptionBody(lines, descriptionLine, responseLine, MethodLineBreak);
      var c := MethodDescriptionComment(lines, descriptionLine, responseLine);
      c == CommentOpen + body + MethodCommentClose
      && NoCommentClose(body)
      && (NoCommentClose(c[..|c| - 1]) <==> (body == "" || body[0] != '/'))
  {
    BodyHasNoCommentClose(lines, descriptionLine, responseLine, InterfaceLineBreak);
    BodyHasNoCommentClose(lines, descriptionLine, responseLine, MethodLineBreak);
    CommentClosesOnlyAtEnd(DescriptionBody(lines, descriptionLine, responseLine, InterfaceLineBreak), InterfaceCommentClose);
    CommentClosesOnlyAtEnd(DescriptionBody(lines, descriptionLine, responseLine, MethodLineBreak), MethodCommentClose);
  }

  /** Both markers present and in order: the slice is the plain range between them. */
  lemma SliceBetweenMarkers(lines: seq<string>, descriptionLine: int, responseLine: int)
    requires 0 <= descriptionLine && descriptionLine + 2 <= responseLine - 1 <= |lines|
    ensures Slice(lines, descriptionLine + 2, responseLine - 1) == lines[descriptionLine + 2..responseLine - 1]
  {
  }

  /**
   * RETURN VALUE missing (`findIndex` gives -1): the slice end is -2,
   * which counts from the end, so the description runs to two lines
   * before the end of the page.
   */
  lemma SliceWithoutReturnValue(lines: seq<string>, descriptionLine: int)
    requires 0 <= descriptionLine && descriptionLine + 2 <= |lines| - 2
    ensures Slice(lines, descriptionLine + 2, -1 - 1) == lines[descriptionLine + 2..|lines| - 2]
  {
  }

  /**
   * RETURN VALUE on line 1 up to three lines below DESCRIPTION: the slice
   * end is at or before its start, so the slice, and so the body, is empty.
   */
  lemma SliceReversedMarkers(lines: seq<string>, descriptionLine: int, responseLine: int, lineBreak: string)
    requires 0 <= descriptionLine && 1 <= responseLine <= descriptionLine + 3
    ensures Slice(lines, descriptionLine + 2, responseLine - 1) == []
    ensures DescriptionBody(lines, descriptionLine, responseLine, lineBreak) == ""
  {
  }

  /**
   * RETURN VALUE on line 0: the slice end is -1, which counts from the
   * end, so the description runs to the line before the last one.
   */
  lemma SliceReturnValueOnFirstLine(lines: seq<string>, descriptionLine: int)
    requires 0 <= descriptionLine && descriptionLine + 2 <= |lines| - 1
    ensures Slice(lines, descriptionLine + 2, 0 - 1) == lines[descriptionLine + 2..|lines| - 1]
  {
  }
}
