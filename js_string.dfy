/**
 * The JavaScript string and array built-ins that the generator leans on,
 * written out with the semantics the ECMAScript specification gives them:
 * `split` and `replaceAll` with a non-empty string separator scan from the
 * left for non-overlapping occurrences, `replace` rewrites only the first
 * occurrence, `trim` strips the WhiteSpace and LineTerminator characters at
 * both ends, `slice` counts negative indices from the end, and `findIndex`
 * answers -1 when nothing matches.
 */
module JsString {

  /** `sep` occurs in `s` starting at index `i`. */
  predicate MatchAt(s: string, sep: string, i: int)
  {
    0 <= i && i + |sep| <= |s| && s[i..i + |sep|] == sep
  }

  /** `String.prototype.includes` with a string argument. */
  predicate Contains(s: string, pat: string)
  {
    exists i :: 0 <= i <= |s| && MatchAt(s, pat, i)
  }

  /** No occurrence of `sep` starts in `s` before index `n`. */
  predicate NoMatchBefore(s: string, sep: string, n: int)
  {
    forall j :: 0 <= j < n ==> !MatchAt(s, sep, j)
  }

  /** `s.split(sep)` for a non-empty string separator. */
  function Split(s: string, sep: string): (r: seq<string>)
    requires |sep| > 0
    ensures |r| >= 1
    decreases |s|
  {
    if |s| < |sep| then [s]
    else if sep <= s then [""] + Split(s[|sep|..], sep)
    else
      var rest := Split(s[1..], sep);
      [[s[0]] + rest[0]] + rest[1..]
  }

  /** `parts.join(sep)`. */
  function Join(parts: seq<string>, sep: string): string
  {
    if |parts| == 0 then ""
    else if |parts| == 1 then parts[0]
    else parts[0] + sep + Join(parts[1..], sep)
  }

  /** `s.replaceAll(pat, rep)` for a non-empty string pattern (no `$` patterns in `rep`). */
  function ReplaceAll(s: string, pat: string, rep: string): string
    requires |pat| > 0
    decreases |s|
  {
    if |s| < |pat| then s
    else if pat <= s then rep + ReplaceAll(s[|pat|..], pat, rep)
    else [s[0]] + ReplaceAll(s[1..], pat, rep)
  }

  /** `s.indexOf(pat)`: the first index where `pat` occurs, or -1. */
  function IndexOf(s: string, pat: string): (r: int)
    ensures r == -1 || MatchAt(s, pat, r)
    ensures NoMatchBefore(s, pat, if r == -1 then |s| + 1 else r)
    decreases |s|
  {
    if |s| < |pat| then -1
    else if pat <= s then 0
    else
      var k := IndexOf(s[1..], pat);
      assert forall j :: 1 <= j <= |s| ==> MatchAt(s, pat, j) == MatchAt(s[1..], pat, j - 1);
      if k == -1 then -1 else k + 1
  }

  /** `s.replace(pat, rep)` for a string pattern: only the first occurrence. */
  function Replace(s: string, pat: string, rep: string): (r: string)
    ensures !Contains(s, pat) ==> r == s
    ensures forall i :: MatchAt(s, pat, i) && NoMatchBefore(s, pat, i) ==>
      r == s[..i] + rep + s[i + |pat|..]
  {
    var i := IndexOf(s, pat);
    if i == -1 then s
    else
      assert forall k :: MatchAt(s, pat, k) && NoMatchBefore(s, pat, k) ==> k == i;
      s[..i] + rep + s[i + |pat|..]
  }

  /** `s.endsWith(suffix)`. */
  predicate EndsWith(s: string, suffix: string)
  {
    |suffix| <= |s| && s[|s| - |suffix|..] == suffix
  }

  /** The characters `String.prototype.trim` removes: WhiteSpace and LineTerminator. */
  predicate IsSpace(c: char)
  {
    c == '\t' || c == '\n' || c == '\U{000B}' || c == '\U{000C}' || c == '\r' || c == ' ' ||
    c == '\U{00A0}' || c == '\U{1680}' || ('\U{2000}' <= c <= '\U{200A}') ||
    c == '\U{2028}' || c == '\U{2029}' || c == '\U{202F}' || c == '\U{205F}' ||
    c == '\U{3000}' || c == '\U{FEFF}'
  }

  /** Drops the leading white space. */
  function TrimStart(s: string): string
  {
    if |s| > 0 && IsSpace(s[0]) then TrimStart(s[1..]) else s
  }

  /** Drops the trailing white space. */
  function TrimEnd(s: string): string
  {
    if |s| > 0 && IsSpace(s[|s| - 1]) then TrimEnd(s[..|s| - 1]) else s
  }

  /** `s.trim()`. */
  function Trim(s: string): string
  {
    TrimEnd(TrimStart(s))
  }

  /** The trimmed string neither starts nor ends with white space. */
  predicate Trimmed(s: string)
  {
    s == [] || (!IsSpace(s[0]) && !IsSpace(s[|s| - 1]))
  }

  /** `/^[A-Z]/.test(s)`. */
  predicate StartsUpper(s: string)
  {
    |s| > 0 && 'A' <= s[0] <= 'Z'
  }

  /** `lines.findIndex((line) => line.includes(pat))`. */
  function FindIndex(lines: seq<string>, pat: string): (r: int)
    ensures -1 <= r < |lines|
    ensures r >= 0 ==> Contains(lines[r], pat)
    ensures forall j :: 0 <= j < |lines| && (r == -1 || j < r) ==> !Contains(lines[j], pat)
  {
    if |lines| == 0 then -1
    else if Contains(lines[0], pat) then 0
    else
      var k := FindIndex(lines[1..], pat);
      if k == -1 then -1 else k + 1
  }

  /** The index `Array.prototype.slice` resolves a relative bound to. */
  function SliceBound(k: int, len: nat): (r: nat)
    ensures r <= len
  {
    if k < 0 then (if len + k < 0 then 0 else len + k)
    else if k > len then len
    else k
  }

  /** `xs.slice(start, end)`. */
  function Slice<T>(xs: seq<T>, start: int, end: int): (r: seq<T>)
    ensures |r| <= |xs|
  {
    var from, to := SliceBound(start, |xs|), SliceBound(end, |xs|);
    if from < to then xs[from..to] else []
  }

  // ---------------------------------------------------------------------
  // Split and join

  /** Joining the pieces of a split with the same separator gives the string back. */
  lemma {:induction false} JoinSplit(s: string, sep: string)
    requires |sep| > 0
    ensures Join(Split(s, sep), sep) == s
    decreases |s|
  {
    if |s| < |sep| {
      assert Split(s, sep) == [s];
    } else if sep <= s {
      JoinSplit(s[|sep|..], sep);
      JoinSplitAtSep(s, sep);
    } else {
      JoinSplit(s[1..], sep);
      JoinSplitAtChar(s, sep);
    }
  }

  /** The step of `JoinSplit` where the string starts with the separator. */
  lemma {:induction false} JoinSplitAtSep(s: string, sep: string)
    requires |sep| > 0 && |s| >= |sep| && sep <= s
    requires Join(Split(s[|sep|..], sep), sep) == s[|sep|..]
    ensures Join(Split(s, sep), sep) == s
  {
    var rest := Split(s[|sep|..], sep);
    assert Split(s, sep) == [""] + rest;
    assert ([""] + rest)[1..] == rest;
    assert Join(Split(s, sep), sep) == "" + sep + Join(rest, sep);
    assert s == sep + s[|sep|..];
  }

  /** The step of `JoinSplit` where the string does not start with the separator. */
  lemma {:induction false} JoinSplitAtChar(s: string, sep: string)
    requires |sep| > 0 && |s| >= |sep| && !(sep <= s)
    requires Join(Split(s[1..], sep), sep) == s[1..]
    ensures Join(Split(s, sep), sep) == s
  {
    var rest := Split(s[1..], sep);
    var r := Split(s, sep);
    assert r == [[s[0]] + rest[0]] + rest[1..];
    assert |r| == |rest| && r[0] == [s[0]] + rest[0] && r[1..] == rest[1..];
    if |rest| == 1 {
      assert Join(r, sep) == [s[0]] + rest[0];
      assert s == [s[0]] + s[1..];
    } else {
      var tail := Join(rest[1..], sep);
      assert Join(r, sep) == ([s[0]] + rest[0]) + sep + tail;
      assert Join(rest, sep) == rest[0] + sep + tail;
      ConcatRegroup([s[0]], rest[0], sep, tail);
      assert s == [s[0]] + s[1..];
    }
  }

  lemma ConcatRegroup(a: string, b: string, c: string, d: string)
    ensures a + b + c + d == a + (b + c + d)
  {
  }

  /** The split of `a + sep + b` cuts at the end of `a` when `sep` does not start inside `a`. */
  lemma {:induction false} SplitAt(a: string, sep: string, b: string)
    requires |sep| > 0
    requires NoMatchBefore(a + sep + b, sep, |a|)
    ensures Split(a + sep + b, sep) == [a] + Split(b, sep)
    decreases |a|
  {
    var s := a + sep + b;
    if a == [] {
      assert s == sep + b;
      assert s[|sep|..] == b;
    } else {
      assert !MatchAt(s, sep, 0);
      assert !(sep <= s);
      assert s[1..] == a[1..] + sep + b;
      forall j | 0 <= j < |a| - 1 ensures !MatchAt(a[1..] + sep + b, sep, j) {
        assert !MatchAt(s, sep, j + 1);
        assert (a[1..] + sep + b)[j..j + |sep|] == s[j + 1..j + 1 + |sep|];
      }
      SplitAt(a[1..], sep, b);
      assert [s[0]] + a[1..] == a;
    }
  }

  /** A string without the separator's first character is a single piece. */
  lemma {:induction false} SplitNone(s: string, sep: string)
    requires |sep| > 0 && sep[0] !in s
    ensures Split(s, sep) == [s]
    decreases |s|
  {
    if |s| >= |sep| {
      assert !(sep <= s);
      SplitNone(s[1..], sep);
      assert [s[0]] + s[1..] == s;
    }
  }

  /** No occurrence of `sep` can start inside a string that lacks its first character. */
  lemma NoMatchWithoutHead(a: string, sep: string, b: string)
    requires |sep| > 0 && sep[0] !in a
    ensures NoMatchBefore(a + sep + b, sep, |a|)
  {
    forall j | 0 <= j < |a| ensures !MatchAt(a + sep + b, sep, j) {
      assert (a + sep + b)[j] == a[j];
    }
  }

  /**
   * No occurrence of a two-character separator with distinct characters can
   * start inside a string that lacks its second character.
   */
  lemma NoMatchWithoutTail(a: string, sep: string, b: string)
    requires |sep| == 2 && sep[0] != sep[1] && sep[1] !in a
    ensures NoMatchBefore(a + sep + b, sep, |a|)
  {
    var s := a + sep + b;
    forall j | 0 <= j < |a| ensures !MatchAt(s, sep, j) {
      assert s[j + 1] == if j + 1 < |a| then a[j + 1] else sep[0];
    }
  }

  /** Splitting on one character undoes joining with it, when no piece contains it. */
  lemma {:induction false} SplitJoin(parts: seq<string>, c: char)
    requires |parts| >= 1
    requires forall i :: 0 <= i < |parts| ==> c !in parts[i]
    ensures Split(Join(parts, [c]), [c]) == parts
    decreases |parts|
  {
    if |parts| == 1 {
      SplitNone(parts[0], [c]);
    } else {
      NoMatchWithoutHead(parts[0], [c], Join(parts[1..], [c]));
      SplitAt(parts[0], [c], Join(parts[1..], [c]));
      SplitJoin(parts[1..], c);
    }
  }

  /** Splitting on one character at an occurrence of it splits the two sides apart. */
  lemma {:induction false} SplitCharConcat(x: string, c: char, y: string)
    ensures Split(x + [c] + y, [c]) == Split(x, [c]) + Split(y, [c])
    decreases |x|
  {
    var s := x + [c] + y;
    if x == [] {
      assert s == [c] + y && s[1..] == y;
    } else if x[0] == c {
      assert s[0] == x[0] && [c] <= s && s[1..] == x[1..] + [c] + y;
      SplitCharConcat(x[1..], c, y);
    } else {
      assert s[0] == x[0] && !([c] <= s) && s[1..] == x[1..] + [c] + y;
      SplitCharConcat(x[1..], c, y);
      var r := Split(x[1..], [c]);
      assert (r + Split(y, [c]))[0] == r[0];
      assert (r + Split(y, [c]))[1..] == r[1..] + Split(y, [c]);
    }
  }

  /** No piece of `s.split(c)` contains the one-character separator `c`. */
  lemma {:induction false} SplitPiecesLack(s: string, c: char)
    ensures forall i :: 0 <= i < |Split(s, [c])| ==> c !in Split(s, [c])[i]
    decreases |s|
  {
    if |s| >= 1 {
      SplitPiecesLack(s[1..], c);
      if !([c] <= s) {
        assert s[0] != c;
        var rest := Split(s[1..], [c]);
        assert Split(s, [c]) == [[s[0]] + rest[0]] + rest[1..];
      }
    }
  }

  /** `[x, ...ys].join(sep)` is `x`, the separator, then the join of `ys`. */
  lemma JoinCons(x: string, ys: seq<string>, sep: string)
    requires ys != []
    ensures Join([x] + ys, sep) == x + sep + Join(ys, sep)
  {
    assert ([x] + ys)[1..] == ys;
  }

  /**
   * Splitting lines that lack the separator character, joined and followed
   * by more text, gives back those lines and then the pieces of the rest.
   */
  lemma {:induction false} SplitJoinedLines(ls: seq<string>, rest: string, c: char)
    requires forall k :: 0 <= k < |ls| ==> c !in ls[k]
    ensures Split(Join(ls + [rest], [c]), [c]) == ls + Split(rest, [c])
    decreases |ls|
  {
    if ls != [] {
      assert ls + [rest] == [ls[0]] + (ls[1..] + [rest]);
      JoinCons(ls[0], ls[1..] + [rest], [c]);
      SplitJoinedLines(ls[1..], rest, c);
      SplitCharConcat(ls[0], c, Join(ls[1..] + [rest], [c]));
      SplitNone(ls[0], [c]);
    }
  }

  /** `[a, b, c].join(sep)`. */
  lemma JoinThree(a: string, b: string, c: string, sep: string)
    ensures Join([a, b, c], sep) == a + sep + b + sep + c
  {
    assert [a, b, c][1..] == [b, c];
    assert [b, c][1..] == [c];
    assert Join([b, c], sep) == b + sep + c;
    assert Join([a, b, c], sep) == a + sep + (b + sep + c);
  }

  /** Joining pieces that lack a character with a separator that lacks it gives a string that lacks it. */
  lemma {:induction false} CharNotInJoin(c: char, parts: seq<string>, sep: string)
    requires c !in sep
    requires forall i :: 0 <= i < |parts| ==> c !in parts[i]
    ensures c !in Join(parts, sep)
    decreases |parts|
  {
    if |parts| > 1 {
      CharNotInJoin(c, parts[1..], sep);
    }
  }

  // ---------------------------------------------------------------------
  // replaceAll

  /** `replaceAll` is `split` followed by `join` with the replacement. */
  lemma {:induction false} ReplaceAllIsSplitJoin(s: string, pat: string, rep: string)
    requires |pat| > 0
    ensures ReplaceAll(s, pat, rep) == Join(Split(s, pat), rep)
    decreases |s|
  {
    if |s| < |pat| {
    } else if pat <= s {
      ReplaceAllIsSplitJoin(s[|pat|..], pat, rep);
    } else {
      var rest := Split(s[1..], pat);
      ReplaceAllIsSplitJoin(s[1..], pat, rep);
      if |rest| > 1 {
        assert ([s[0]] + rest[0]) + rep + Join(rest[1..], rep)
            == [s[0]] + (rest[0] + rep + Join(rest[1..], rep));
      }
    }
  }

  /** Deleting every occurrence of a character leaves none. */
  lemma {:induction false} RemoveCharGone(s: string, c: char)
    ensures c !in ReplaceAll(s, [c], "")
    decreases |s|
  {
    if |s| >= 1 {
      RemoveCharGone(s[1..], c);
      if [c] <= s {
        assert ReplaceAll(s, [c], "") == ReplaceAll(s[1..], [c], "");
      } else {
        assert s[0] != c;
      }
    }
  }

  /** Deleting a character keeps every other character, in order. */
  lemma {:induction false} RemoveCharKeeps(s: string, c: char)
    requires c !in s
    ensures ReplaceAll(s, [c], "") == s
    decreases |s|
  {
    if |s| >= 1 {
      assert s[0] != c && s[0] == s[..1][0];
      RemoveCharKeeps(s[1..], c);
      assert [s[0]] + s[1..] == s;
    }
  }

  /** Deleting a character distributes over concatenation. */
  lemma {:induction false} RemoveCharConcat(a: string, b: string, c: char)
    ensures ReplaceAll(a + b, [c], "") == ReplaceAll(a, [c], "") + ReplaceAll(b, [c], "")
    decreases |a|
  {
    if a == [] {
      assert a + b == b;
    } else {
      RemoveCharConcat(a[1..], b, c);
      var s := a + b;
      assert s[1..] == a[1..] + b;
      assert s[0] == a[0];
      if a[0] == c {
        assert [c] <= s && [c] <= a;
        assert ReplaceAll(s, [c], "") == ReplaceAll(s[1..], [c], "");
        assert ReplaceAll(a, [c], "") == ReplaceAll(a[1..], [c], "");
      } else {
        assert !([c] <= s) && !([c] <= a);
        assert ReplaceAll(s, [c], "") == [s[0]] + ReplaceAll(s[1..], [c], "");
        assert ReplaceAll(a, [c], "") == [a[0]] + ReplaceAll(a[1..], [c], "");
      }
    }
  }

  /** No character other than the deleted one is introduced. */
  lemma {:induction false} RemoveCharSubset(s: string, c: char, d: char)
    requires d !in s
    ensures d !in ReplaceAll(s, [c], "")
    decreases |s|
  {
    if |s| >= 1 {
      RemoveCharSubset(s[1..], c, d);
    }
  }

  // The string holds no star immediately followed by a slash, so it cannot close a block comment.
  predicate NoCommentClose(s: string)
  {
    forall i :: 0 <= i < |s| - 1 ==> !(s[i] == '*' && s[i + 1] == '/')
  }

  // Escaping star-slash as star-backslash-slash keeps the first character and never shortens the string.
  lemma {:induction false} EscapeHead(s: string)
    ensures |ReplaceAll(s, "*/", "*\\/")| >= |s|
    ensures |s| > 0 ==> ReplaceAll(s, "*/", "*\\/")[0] == s[0]
    decreases |s|
  {
    if |s| >= 2 && !("*/" <= s) {
      EscapeHead(s[1..]);
    } else if |s| >= 2 {
      EscapeHead(s[2..]);
    }
  }

  // After escaping, no star is immediately followed by a slash.
  lemma {:induction false} EscapeRemovesCommentClose(s: string)
    ensures NoCommentClose(ReplaceAll(s, "*/", "*\\/"))
    decreases |s|
  {
    var r := ReplaceAll(s, "*/", "*\\/");
    if |s| < 2 {
      assert r == s;
    } else if "*/" <= s {
      var t := ReplaceAll(s[2..], "*/", "*\\/");
      EscapeRemovesCommentClose(s[2..]);
      assert r == "*\\/" + t;
      forall i | 0 <= i < |r| - 1 ensures !(r[i] == '*' && r[i + 1] == '/') {
        if i >= 3 { assert r[i] == t[i - 3] && r[i + 1] == t[i - 2]; }
      }
    } else {
      var t := ReplaceAll(s[1..], "*/", "*\\/");
      EscapeRemovesCommentClose(s[1..]);
      EscapeHead(s[1..]);
      assert r == [s[0]] + t;
      assert !(s[0] == '*' && s[1] == '/');
      forall i | 0 <= i < |r| - 1 ensures !(r[i] == '*' && r[i + 1] == '/') {
        if i >= 1 { assert r[i] == t[i - 1] && r[i + 1] == t[i]; }
      }
    }
  }

  // ---------------------------------------------------------------------
  // trim

  /** `trimStart` removes a prefix made only of white space and stops at the first other character. */
  lemma {:induction false} TrimStartSpec(s: string)
    ensures var r := TrimStart(s);
      |r| <= |s| && r == s[|s| - |r|..]
      && (forall i :: 0 <= i < |s| - |r| ==> IsSpace(s[i]))
      && (r == [] || !IsSpace(r[0]))
    decreases |s|
  {
    if |s| > 0 && IsSpace(s[0]) {
      TrimStartSpec(s[1..]);
    }
  }

  /** `trimEnd` removes a suffix made only of white space and stops at the last other character. */
  lemma {:induction false} TrimEndSpec(s: string)
    ensures var r := TrimEnd(s);
      |r| <= |s| && r == s[..|r|]
      && (forall i :: |r| <= i < |s| ==> IsSpace(s[i]))
      && (r == [] || !IsSpace(r[|r| - 1]))
    decreases |s|
  {
    if |s| > 0 && IsSpace(s[|s| - 1]) {
      TrimEndSpec(s[..|s| - 1]);
    }
  }

  /** `trim` leaves no white space at either end. */
  lemma TrimIsTrimmed(s: string)
    ensures Trimmed(Trim(s))
  {
    var t := TrimStart(s);
    var r := TrimEnd(t);
    TrimStartSpec(s);
    TrimEndSpec(t);
    if r != [] {
      assert r == t[..|r|];
      assert r[0] == t[0];
    }
  }

  /** `trim` removes only white space: the result is a slice of the input with spaces on both sides. */
  lemma TrimIsInfix(s: string)
    ensures exists i, j :: (0 <= i <= j <= |s| && Trim(s) == s[i..j]
      && (forall k :: 0 <= k < i ==> IsSpace(s[k]))
      && (forall k :: j <= k < |s| ==> IsSpace(s[k])))
  {
    var t := TrimStart(s);
    var r := TrimEnd(t);
    TrimStartSpec(s);
    TrimEndSpec(t);
    var i := |s| - |t|;
    var j := i + |r|;
    assert r == s[i..j];
    forall k | j <= k < |s| ensures IsSpace(s[k]) {
      assert s[k] == t[k - i];
    }
  }

  /** A string that neither starts nor ends with white space is its own trim. */
  lemma {:induction false} TrimTrimmed(s: string)
    requires Trimmed(s)
    ensures Trim(s) == s
  {
  }
}
