/**
 * The synopsis parser: recovers a command's name and its required and
 * optional parameter names from a calling-convention line such as
 *
 *   **listinvoices** \[*label*\] \[*invstring*\] \[*payment_hash*\] \[*offer_id*\]
 *
 * by splitting on `**`, on the escaped bracket `\[` and on `*`, trimming each
 * token and deleting its backslashes. The empty-token filter is the source's
 * `splice` inside `forEach`, which passes over the token after each one it
 * removes; it is modelled as it behaves, not as a clean filter.
 */
module SynopsisParser {
  import opened JsString
  import opened Results

  /** What the parser recovers: the command name and its parameter names in declaration order. */
  datatype Synopsis = Synopsis(name: string, parameters: seq<string>, optionalParameters: seq<string>)

  /** The inputs on which the parser throws (after logging the input). */
  datatype ParseError =
    | NoCommandName                         // `parts[1]` is undefined: the line holds no `**`
    | NoParameterText                       // `parts[2]` is undefined: the line holds one `**` only
    | OptionalWithoutName(segment: string)  // an optional segment without any `*`

  const NameMark: string := "**"
  const OptionalOpen: string := "\\["
  const ParamMark: string := "*"

  /** `p.trim().replaceAll("\\", "")`, applied to every extracted token. */
  function Clean(t: string): string
  {
    ReplaceAll(Trim(t), "\\", "")
  }

  /** `tokens.map(Clean)`. */
  function CleanAll(ts: seq<string>): seq<string>
  {
    if ts == [] then [] else [Clean(ts[0])] + CleanAll(ts[1..])
  }

  /**
   * What `parameters.forEach((p, i) => { if (p === "") parameters.splice(i, 1); })`
   * leaves: the element after each removed one slides into the slot just
   * visited and is never examined.
   */
  function DropEmptyOnce(ts: seq<string>): seq<string>
  {
    if |ts| == 0 then []
    else if ts[0] != "" then [ts[0]] + DropEmptyOnce(ts[1..])
    else if |ts| == 1 then []
    else [ts[1]] + DropEmptyOnce(ts[2..])
  }

  /** The source's guard `if (parts[2].split("\\[")[1])`: a second segment that is not empty. */
  predicate HasOptional(segments: seq<string>)
  {
    |segments| >= 2 && segments[1] != ""
  }

  /** The name between the first and the second `*` of each optional segment, in order. */
  function OptionalNames(segments: seq<string>): Result<seq<string>, ParseError>
  {
    if |segments| == 0 then Success([])
    else
      var pieces := Split(segments[0], ParamMark);
      if |pieces| < 2 then Failure(OptionalWithoutName(segments[0]))
      else match OptionalNames(segments[1..])
        case Success(rest) => Success([Clean(pieces[1])] + rest)
        case Failure(e) => Failure(e)
  }

  /** The value `parseSynopsis` returns, or the point at which it throws. */
  function Parse(synopsis: string): Result<Synopsis, ParseError>
  {
    var parts := Split(synopsis, NameMark);
    if |parts| < 2 then Failure(NoCommandName)
    else if |parts| < 3 then Failure(NoParameterText)
    else
      var segments := Split(parts[2], OptionalOpen);
      var parameters := DropEmptyOnce(CleanAll(Split(segments[0], ParamMark)));
      if HasOptional(segments) then
        match OptionalNames(segments[1..])
        case Success(optional) => Success(Synopsis(Clean(parts[1]), parameters, optional))
        case Failure(e) => Failure(e)
      else Success(Synopsis(Clean(parts[1]), parameters, []))
  }

  /** `OptionalNames` of the segments not yet visited, after the names already pushed. */
  function After(pushed: seq<string>, rest: Result<seq<string>, ParseError>): Result<seq<string>, ParseError>
  {
    match rest
    case Success(names) => Success(pushed + names)
    case Failure(e) => Failure(e)
  }

  /**
   * The `forEach` that splices the empty tokens out: it visits the indices
   * fixed at the start while `splice` shortens the array under it.
   */
  method SpliceEmptyTokens(tokens: seq<string>) returns (parameters: seq<string>)
    ensures parameters == DropEmptyOnce(tokens)
  {
    parameters := tokens;
    var count := |parameters|;
    var i := 0;
    assert parameters[..0] + DropEmptyOnce(parameters[0..]) == DropEmptyOnce(tokens) by {
      assert parameters[0..] == tokens;
    }
    while i < count
      invariant i <= count && |parameters| <= count
      invariant Visited(parameters, i) == DropEmptyOnce(tokens)
    {
      if i < |parameters| && parameters[i] == "" {
        SpliceStep(parameters, i);
        parameters := parameters[..i] + parameters[i + 1..];
      } else if i < |parameters| {
        KeepStep(parameters, i);
      }
      i := i + 1;
    }
    if i == |parameters| {
      assert parameters[..i] == parameters && parameters[i..] == [];
    }
  }

  /** The array as the filter leaves it once index `i` is reached: done up to `i`, unvisited after. */
  function Visited(ps: seq<string>, i: nat): seq<string>
  {
    if i <= |ps| then ps[..i] + DropEmptyOnce(ps[i..]) else ps
  }

  /** Splicing out the empty token at `i` and moving on loses nothing but that token. */
  lemma SpliceStep(ps: seq<string>, i: nat)
    requires i < |ps| && ps[i] == ""
    ensures Visited(ps[..i] + ps[i + 1..], i + 1) == Visited(ps, i)
  {
    var after := ps[..i] + ps[i + 1..];
    if i + 1 < |ps| {
      assert ps[i..][2..] == ps[i + 2..];
      assert DropEmptyOnce(ps[i..]) == [ps[i + 1]] + DropEmptyOnce(ps[i + 2..]);
      assert after[..i + 1] == ps[..i] + [ps[i + 1]];
      assert after[i + 1..] == ps[i + 2..];
    } else {
      assert DropEmptyOnce(ps[i..]) == [];
      assert after == ps[..i];
    }
  }

  /** Passing over a non-empty token keeps it. */
  lemma KeepStep(ps: seq<string>, i: nat)
    requires i < |ps| && ps[i] != ""
    ensures Visited(ps, i + 1) == Visited(ps, i)
  {
    assert ps[i..][1..] == ps[i + 1..];
    assert DropEmptyOnce(ps[i..]) == [ps[i]] + DropEmptyOnce(ps[i + 1..]);
    assert ps[..i + 1] == ps[..i] + [ps[i]];
  }

  /** The `forEach` over the optional segments that pushes the name found in each. */
  method PushOptionalNames(segments: seq<string>) returns (r: Result<seq<string>, ParseError>)
    ensures r == OptionalNames(segments)
  {
    var optional: seq<string> := [];
    var k := 0;
    assert segments[0..] == segments;
    AfterNothing(OptionalNames(segments));
    while k < |segments|
      invariant 0 <= k <= |segments|
      invariant OptionalNames(segments) == After(optional, OptionalNames(segments[k..]))
    {
      assert segments[k..][1..] == segments[k + 1..];
      var pieces := Split(segments[k], ParamMark);
      if |pieces| < 2 {
        return Failure(OptionalWithoutName(segments[k]));
      }
      AfterAfter(optional, Clean(pieces[1]), OptionalNames(segments[k + 1..]));
      optional := optional + [Clean(pieces[1])];
      k := k + 1;
    }
    assert segments[k..] == [];
    assert optional + [] == optional;
    return Success(optional);
  }

  lemma AfterNothing(rest: Result<seq<string>, ParseError>)
    ensures After([], rest) == rest
  {
    if rest.Success? { assert [] + rest.value == rest.value; }
  }

  lemma AfterAfter(pushed: seq<string>, name: string, rest: Result<seq<string>, ParseError>)
    ensures After(pushed, After([name], rest)) == After(pushed + [name], rest)
  {
    if rest.Success? { assert pushed + ([name] + rest.value) == (pushed + [name]) + rest.value; }
  }

  /** `parseSynopsis`: the name between the `**` marks, the required names, the optional names. */
  method ParseSynopsis(synopsis: string) returns (r: Result<Synopsis, ParseError>)
    ensures r == Parse(synopsis)
  {
    var parts := Split(synopsis, NameMark);
    if |parts| < 2 {
      return Failure(NoCommandName);
    }
    var name := Clean(parts[1]);
    if |parts| < 3 {
      return Failure(NoParameterText);
    }
    var segments := Split(parts[2], OptionalOpen);
    var parameters := SpliceEmptyTokens(CleanAll(Split(segments[0], ParamMark)));
    var optional: seq<string> := [];
    if HasOptional(segments) {
      var names := PushOptionalNames(segments[1..]);
      match names
      case Failure(e) => return Failure(e);
      case Success(o) => optional := o;
    }
    return Success(Synopsis(name, parameters, optional));
  }

  // ---------------------------------------------------------------------
  // The documented calling-convention grammar, as a printer

  /** ` *p*` for every required parameter. */
  function RequiredText(ps: seq<string>): string
  {
    if ps == [] then "" else " *" + ps[0] + "*" + RequiredText(ps[1..])
  }

  /** `\[*o*\] ` for every optional parameter. */
  function OptionalText(os: seq<string>): string
  {
    if os == [] then "" else "\\[*" + os[0] + "*\\] " + OptionalText(os[1..])
  }

  /**
   * A synopsis line as the reference documents write it, after the locator
   * has appended its trailing space: `**name** *p1* *p2* \[*o1*\] \[*o2*\] `.
   */
  function Render(name: string, ps: seq<string>, os: seq<string>): string
  {
    NameMark + name + NameMark + RequiredText(ps) + " " + OptionalText(os)
  }

  /** A parameter name as it may appear between `*` marks: not empty, no `*`, no `[`. */
  predicate PlainName(p: string)
  {
    p != "" && '*' !in p && '[' !in p
  }

  // ---------------------------------------------------------------------
  // Properties of the splice-in-forEach filter

  /** The tokens of ` *p1* *p2* `: a gap, then each name followed by a gap. */
  function Interleave(ps: seq<string>): seq<string>
  {
    if ps == [] then [" "] else [" ", ps[0]] + Interleave(ps[1..])
  }

  /** Every second token empty, starting and ending with an empty one. */
  function Gapped(xs: seq<string>): seq<string>
  {
    if xs == [] then [""] else ["", xs[0]] + Gapped(xs[1..])
  }

  /** The filter keeps exactly the names out of gap-separated tokens, even empty names. */
  lemma {:induction false} DropEmptyOnceGapped(xs: seq<string>)
    ensures DropEmptyOnce(Gapped(xs)) == xs
    decreases |xs|
  {
    if xs != [] {
      var g := Gapped(xs);
      assert g[2..] == Gapped(xs[1..]);
      DropEmptyOnceGapped(xs[1..]);
    }
  }

  /** The non-empty tokens, in order. */
  function NonEmpty(ts: seq<string>): seq<string>
  {
    if ts == [] then [] else (if ts[0] == "" then [] else [ts[0]]) + NonEmpty(ts[1..])
  }

  /** The filter never loses or reorders a non-empty token. */
  lemma {:induction false} DropEmptyOnceKeepsNames(ts: seq<string>)
    ensures NonEmpty(DropEmptyOnce(ts)) == NonEmpty(ts)
    decreases |ts|
  {
    if |ts| == 0 {
    } else if ts[0] != "" {
      DropEmptyOnceKeepsNames(ts[1..]);
      assert (([ts[0]] + DropEmptyOnce(ts[1..]))[1..]) == DropEmptyOnce(ts[1..]);
    } else if |ts| == 1 {
    } else {
      DropEmptyOnceKeepsNames(ts[2..]);
      assert ts[1..][1..] == ts[2..];
      assert (([ts[1]] + DropEmptyOnce(ts[2..]))[1..]) == DropEmptyOnce(ts[2..]);
    }
  }

  /** No two neighbouring tokens are both empty. */
  predicate NoAdjacentEmpty(ts: seq<string>)
  {
    forall i :: 0 <= i < |ts| - 1 ==> ts[i] != "" || ts[i + 1] != ""
  }

  /** Only a run of two empty tokens lets an empty token through. */
  lemma {:induction false} DropEmptyOnceClean(ts: seq<string>)
    requires NoAdjacentEmpty(ts)
    ensures "" !in DropEmptyOnce(ts)
    decreases |ts|
  {
    if |ts| == 0 {
    } else if ts[0] != "" {
      DropEmptyOnceClean(ts[1..]);
    } else if |ts| == 1 {
    } else {
      assert ts[1] != "";
      DropEmptyOnceClean(ts[2..]);
    }
  }

  /** Two empty tokens in a row: the second one survives the filter. */
  lemma DropEmptyOnceSkips()
    ensures DropEmptyOnce(["", "", "amount"]) == ["", "amount"]
  {
    assert ["", "", "amount"][2..] == ["amount"];
    assert DropEmptyOnce(["amount"]) == ["amount"];
  }

  /** Every token the filter keeps was a token of its input. */
  lemma {:induction false} DropEmptyOnceSubset(ts: seq<string>, c: char)
    requires forall i :: 0 <= i < |ts| ==> c !in ts[i]
    ensures forall i :: 0 <= i < |DropEmptyOnce(ts)| ==> c !in DropEmptyOnce(ts)[i]
    decreases |ts|
  {
    if |ts| == 0 {
    } else if ts[0] != "" {
      DropEmptyOnceSubset(ts[1..], c);
    } else if |ts| == 1 {
    } else {
      DropEmptyOnceSubset(ts[2..], c);
    }
  }

  // ---------------------------------------------------------------------
  // Clean names

  /** Cleaning leaves no backslash. */
  lemma CleanHasNoBackslash(t: string)
    ensures '\\' !in Clean(t)
  {
    RemoveCharGone(Trim(t), '\\');
  }

  /** A token without backslashes is cleaned to its trim, so it is trimmed. */
  lemma CleanTrimmedWithoutBackslash(t: string)
    requires '\\' !in t
    ensures Clean(t) == Trim(t) && Trimmed(Clean(t))
  {
    TrimIsInfix(t);
    var i, j :| 0 <= i <= j <= |t| && Trim(t) == t[i..j];
    assert forall k :: 0 <= k < |Trim(t)| ==> Trim(t)[k] == t[i + k];
    RemoveCharKeeps(Trim(t), '\\');
    TrimIsTrimmed(t);
  }

  /** Trimming before deleting backslashes can leave white space: `\ a` is cleaned to ` a`. */
  lemma CleanCanLeaveSpace()
    ensures Clean("\\ a") == " a" && !Trimmed(Clean("\\ a"))
  {
    assert Trim("\\ a") == "\\ a";
    var s := "\\ a";
    assert "\\" <= s;
    assert s[1..] == " a";
    RemoveCharKeeps(" a", '\\');
  }

  /** A name without white space, `*`, `[` or backslash is left as it is. */
  lemma CleanPlain(t: string)
    requires '\\' !in t && Trimmed(t)
    ensures Clean(t) == t
  {
    TrimTrimmed(t);
    RemoveCharKeeps(t, '\\');
  }

  /** Every cleaned token is free of backslashes. */
  lemma {:induction false} CleanAllNoBackslash(ts: seq<string>)
    ensures |CleanAll(ts)| == |ts|
    ensures forall i :: 0 <= i < |ts| ==> '\\' !in CleanAll(ts)[i]
    decreases |ts|
  {
    if ts != [] {
      CleanHasNoBackslash(ts[0]);
      CleanAllNoBackslash(ts[1..]);
    }
  }

  /** Every optional name is a cleaned token. */
  lemma {:induction false} OptionalNamesClean(segments: seq<string>)
    ensures OptionalNames(segments).Success? ==>
      forall i :: 0 <= i < |OptionalNames(segments).value| ==> '\\' !in OptionalNames(segments).value[i]
    decreases |segments|
  {
    if |segments| > 0 {
      var pieces := Split(segments[0], ParamMark);
      OptionalNamesClean(segments[1..]);
      if |pieces| >= 2 {
        CleanHasNoBackslash(pieces[1]);
      }
    }
  }

  /** The name and every parameter name the parser returns is free of backslashes. */
  lemma ParsedNamesClean(synopsis: string)
    requires Parse(synopsis).Success?
    ensures var d := Parse(synopsis).value;
      '\\' !in d.name
      && (forall i :: 0 <= i < |d.parameters| ==> '\\' !in d.parameters[i])
      && (forall i :: 0 <= i < |d.optionalParameters| ==> '\\' !in d.optionalParameters[i])
  {
    var parts := Split(synopsis, NameMark);
    var segments := Split(parts[2], OptionalOpen);
    var tokens := CleanAll(Split(segments[0], ParamMark));
    CleanHasNoBackslash(parts[1]);
    CleanAllNoBackslash(Split(segments[0], ParamMark));
    DropEmptyOnceSubset(tokens, '\\');
    OptionalNamesClean(segments[1..]);
  }

  // ---------------------------------------------------------------------
  // Shape of the optional list and the failure points

  /** A segment splits on `*` into two or more pieces exactly when it holds a `*`. */
  lemma StarSplit(t: string)
    ensures |Split(t, ParamMark)| >= 2 <==> '*' in t
  {
    SplitSingleIff(t, ParamMark);
    ContainsChar(t, ParamMark);
  }

  /** The optional names: one per segment, in order, when every segment holds a `*`. */
  lemma {:induction false} OptionalNamesShape(segments: seq<string>)
    ensures OptionalNames(segments).Success? <==>
      forall k :: 0 <= k < |segments| ==> |Split(segments[k], ParamMark)| >= 2
    ensures OptionalNames(segments).Success? ==>
      |OptionalNames(segments).value| == |segments|
      && forall k :: 0 <= k < |segments| ==>
        |Split(segments[k], ParamMark)| >= 2
        && OptionalNames(segments).value[k] == Clean(Split(segments[k], ParamMark)[1])
    decreases |segments|
  {
    if |segments| > 0 {
      var tail := segments[1..];
      OptionalNamesShape(tail);
      forall k | 1 <= k < |segments| ensures segments[k] == tail[k - 1] { }
      if OptionalNames(segments).Success? {
        var names := OptionalNames(segments).value;
        assert names[1..] == OptionalNames(tail).value;
        forall k | 0 <= k < |segments|
          ensures |Split(segments[k], ParamMark)| >= 2 && names[k] == Clean(Split(segments[k], ParamMark)[1])
        {
          if k > 0 { assert names[k] == names[1..][k - 1]; }
        }
      } else if |Split(segments[0], ParamMark)| >= 2 {
        var k :| 0 <= k < |tail| && |Split(tail[k], ParamMark)| < 2;
        assert segments[k + 1] == tail[k];
      }
    }
  }

  /** When the optional names fail, the error names the first segment without a `*`. */
  lemma {:induction false} OptionalNamesFirstFailure(segments: seq<string>)
    requires OptionalNames(segments).Failure?
    ensures exists k :: (0 <= k < |segments|
      && |Split(segments[k], ParamMark)| < 2
      && OptionalNames(segments).error == OptionalWithoutName(segments[k])
      && forall j :: 0 <= j < k ==> |Split(segments[j], ParamMark)| >= 2)
    decreases |segments|
  {
    if |Split(segments[0], ParamMark)| < 2 {
      assert 0 < |segments| && |Split(segments[0], ParamMark)| < 2
        && OptionalNames(segments).error == OptionalWithoutName(segments[0]);
    } else {
      var tail := segments[1..];
      OptionalNamesFirstFailure(tail);
      var k :| 0 <= k < |tail| && |Split(tail[k], ParamMark)| < 2
        && OptionalNames(tail).error == OptionalWithoutName(tail[k])
        && forall j :: 0 <= j < k ==> |Split(tail[j], ParamMark)| >= 2;
      forall j | 0 <= j < k + 1 ensures |Split(segments[j], ParamMark)| >= 2 {
        if j > 0 { assert segments[j] == tail[j - 1]; }
      }
      assert segments[k + 1] == tail[k];
    }
  }

  /** `split` yields a single piece exactly when the separator does not occur. */
  lemma {:induction false} SplitSingleIff(s: string, sep: string)
    requires |sep| > 0
    ensures |Split(s, sep)| == 1 <==> !Contains(s, sep)
    decreases |s|
  {
    if |s| < |sep| {
      assert !Contains(s, sep);
    } else if sep <= s {
      assert MatchAt(s, sep, 0);
    } else {
      SplitSingleIff(s[1..], sep);
      ContainsTail(s, sep);
    }
  }

  /** Without a match at the front, `s` contains `sep` exactly when its tail does. */
  lemma ContainsTail(s: string, sep: string)
    requires |sep| > 0 && |s| >= 1 && !MatchAt(s, sep, 0)
    ensures Contains(s, sep) <==> Contains(s[1..], sep)
  {
    if Contains(s[1..], sep) {
      var i :| 0 <= i <= |s[1..]| && MatchAt(s[1..], sep, i);
      assert s[i + 1..i + 1 + |sep|] == s[1..][i..i + |sep|];
      assert MatchAt(s, sep, i + 1);
    }
    if Contains(s, sep) {
      var i :| 0 <= i <= |s| && MatchAt(s, sep, i);
      assert i >= 1;
      assert s[i..i + |sep|] == s[1..][i - 1..i - 1 + |sep|];
      assert MatchAt(s[1..], sep, i - 1);
    }
  }

  /** A one-character separator occurs exactly when its character does. */
  lemma ContainsChar(s: string, sep: string)
    requires |sep| == 1
    ensures Contains(s, sep) <==> sep[0] in s
  {
    if sep[0] in s {
      var i :| 0 <= i < |s| && s[i] == sep[0];
      assert s[i..i + 1] == sep;
      assert MatchAt(s, sep, i);
    }
    if Contains(s, sep) {
      var i :| 0 <= i <= |s| && MatchAt(s, sep, i);
      assert s[i] == s[i..i + 1][0];
    }
  }

  /**
   * The parser throws exactly when the line has no `**`, when `split("**")`
   * yields exactly two pieces, or when the optional list is entered and one
   * of its segments has no `*`.
   */
  lemma ParseFailures(synopsis: string)
    ensures var parts := Split(synopsis, NameMark);
      (Parse(synopsis) == Failure(NoCommandName) <==> !Contains(synopsis, NameMark))
      && (Parse(synopsis) == Failure(NoParameterText) <==> |parts| == 2)
      && (Parse(synopsis).Failure? <==>
            |parts| < 3
            || (HasOptional(Split(parts[2], OptionalOpen))
                && exists k :: 1 <= k < |Split(parts[2], OptionalOpen)| && '*' !in Split(parts[2], OptionalOpen)[k]))
  {
    var parts := Split(synopsis, NameMark);
    SplitSingleIff(synopsis, NameMark);
    if |parts| >= 3 {
      var segments := Split(parts[2], OptionalOpen);
      if HasOptional(segments) {
        var tail := segments[1..];
        OptionalNamesShape(tail);
        forall k | 1 <= k < |segments| ensures segments[k] == tail[k - 1] && ('*' in segments[k] <==> |Split(tail[k - 1], ParamMark)| >= 2) {
          StarSplit(segments[k]);
        }
        if OptionalNames(tail).Failure? {
          OptionalNamesFirstFailure(tail);
          var k :| 0 <= k < |tail| && |Split(tail[k], ParamMark)| < 2
            && OptionalNames(tail).error == OptionalWithoutName(tail[k]);
          assert '*' !in segments[k + 1];
        }
      }
    }
  }

  /** The optional segment named in the error is the first one without a `*`. */
  lemma ParseOptionalFailure(synopsis: string)
    requires |Split(synopsis, NameMark)| >= 3 && Parse(synopsis).Failure?
    ensures var segments := Split(Split(synopsis, NameMark)[2], OptionalOpen);
      exists k :: (1 <= k < |segments| && '*' !in segments[k]
        && Parse(synopsis).error == OptionalWithoutName(segments[k])
        && forall j :: 1 <= j < k ==> '*' in segments[j])
  {
    var segments := Split(Split(synopsis, NameMark)[2], OptionalOpen);
    var tail := segments[1..];
    assert OptionalNames(tail).Failure? && Parse(synopsis).error == OptionalNames(tail).error;
    FirstWithoutStar(segments);
    var k :| 1 <= k < |segments| && '*' !in segments[k]
        && OptionalNames(tail).error == OptionalWithoutName(segments[k])
        && forall j :: 1 <= j < k ==> '*' in segments[j];
    assert Parse(synopsis).error == OptionalWithoutName(segments[k]);
    assert 1 <= k < |segments| && '*' !in segments[k];
    assert forall j :: 1 <= j < k ==> '*' in segments[j];
    assert Split(Split(synopsis, NameMark)[2], OptionalOpen) == segments;
  }

  lemma FirstWithoutStar(segments: seq<string>)
    requires |segments| >= 1 && OptionalNames(segments[1..]).Failure?
    ensures exists k :: (1 <= k < |segments| && '*' !in segments[k]
        && OptionalNames(segments[1..]).error == OptionalWithoutName(segments[k])
        && forall j :: 1 <= j < k ==> '*' in segments[j])
  {
    var tail := segments[1..];
    OptionalNamesFirstFailure(tail);
    var k :| 0 <= k < |tail| && |Split(tail[k], ParamMark)| < 2
      && OptionalNames(tail).error == OptionalWithoutName(tail[k])
      && forall j :: 0 <= j < k ==> |Split(tail[j], ParamMark)| >= 2;
    StarSplit(tail[k]);
    forall j | 1 <= j < k + 1 ensures '*' in segments[j] {
      assert segments[j] == tail[j - 1];
      StarSplit(segments[j]);
    }
    assert segments[k + 1] == tail[k];
  }

  /** The optional list has one name per segment after the first, in order, once the guard holds. */
  lemma ParseOptionalShape(synopsis: string)
    requires Parse(synopsis).Success?
    ensures var segments := Split(Split(synopsis, NameMark)[2], OptionalOpen);
      var optional := Parse(synopsis).value.optionalParameters;
      |optional| == (if HasOptional(segments) then |segments| - 1 else 0)
      && forall k :: 1 <= k < |segments| && HasOptional(segments) ==>
           |Split(segments[k], ParamMark)| >= 2 && optional[k - 1] == Clean(Split(segments[k], ParamMark)[1])
  {
    var segments := Split(Split(synopsis, NameMark)[2], OptionalOpen);
    if HasOptional(segments) {
      var optional := Parse(synopsis).value.optionalParameters;
      assert OptionalNames(segments[1..]) == Success(optional);
      OptionalNamesShape(segments[1..]);
      forall k | 1 <= k < |segments|
        ensures |Split(segments[k], ParamMark)| >= 2 && optional[k - 1] == Clean(Split(segments[k], ParamMark)[1])
      {
        assert segments[k] == segments[1..][k - 1];
      }
    }
  }

  // ---------------------------------------------------------------------
  // The parser inverts the documented grammar

  lemma {:induction false} RequiredTextJoin(ps: seq<string>)
    ensures RequiredText(ps) + " " == Join(Interleave(ps), ParamMark)
    decreases |ps|
  {
    if ps != [] {
      RequiredTextJoin(ps[1..]);
      var rest := Interleave(ps[1..]);
      assert ([ps[0]] + rest)[1..] == rest;
      assert ([" ", ps[0]] + rest)[1..] == [ps[0]] + rest;
    }
  }

  function OptionalSegments(os: seq<string>): seq<string>
  {
    if os == [] then [] else ["*" + os[0] + "*\\] "] + OptionalSegments(os[1..])
  }

  lemma {:induction false} OptionalTextJoin(a: string, os: seq<string>)
    ensures a + OptionalText(os) == Join([a] + OptionalSegments(os), OptionalOpen)
    decreases |os|
  {
    if os != [] {
      var seg := "*" + os[0] + "*\\] ";
      OptionalTextJoin(seg, os[1..]);
      assert ([a] + OptionalSegments(os))[1..] == [seg] + OptionalSegments(os[1..]);
      assert OptionalText(os) == OptionalOpen + seg + OptionalText(os[1..]);
    }
  }

  /** The white space between two parameters is cleaned to the empty token. */
  lemma CleanGap()
    ensures Clean(" ") == ""
  {
    assert TrimStart(" ") == TrimStart(" "[1..]);
    assert " "[1..] == "";
  }

  lemma {:induction false} CleanAllInterleave(ps: seq<string>)
    ensures CleanAll(Interleave(ps)) == Gapped(CleanAll(ps))
    decreases |ps|
  {
    CleanGap();
    if ps != [] {
      CleanAllInterleave(ps[1..]);
      assert CleanAll(ps)[1..] == CleanAll(ps[1..]);
    }
  }

  lemma {:induction false} OptionalNamesRendered(os: seq<string>)
    requires forall i :: 0 <= i < |os| ==> PlainName(os[i])
    ensures OptionalNames(OptionalSegments(os)) == Success(CleanAll(os))
    decreases |os|
  {
    if os != [] {
      var seg := "*" + os[0] + "*\\] ";
      var segments := OptionalSegments(os);
      JoinThree("", os[0], "\\] ", ParamMark);
      assert seg == "" + ParamMark + os[0] + ParamMark + "\\] ";
      SplitJoin(["", os[0], "\\] "], '*');
      assert Split(segments[0], ParamMark) == ["", os[0], "\\] "];
      OptionalNamesRendered(os[1..]);
      assert segments[1..] == OptionalSegments(os[1..]);
      assert OptionalNames(segments) == Success([Clean(os[0])] + CleanAll(os[1..]));
    }
  }

  /** The pieces of the two-character escaped bracket split. */
  lemma {:induction false} SplitJoinBracket(parts: seq<string>)
    requires |parts| >= 1
    requires forall i :: 0 <= i < |parts| ==> '[' !in parts[i]
    ensures Split(Join(parts, OptionalOpen), OptionalOpen) == parts
    decreases |parts|
  {
    if |parts| == 1 {
      NoMatchWithoutTail(parts[0], OptionalOpen, "");
      assert parts[0] + OptionalOpen + "" == parts[0] + OptionalOpen;
      SplitWholeTail(parts[0]);
    } else {
      NoMatchWithoutTail(parts[0], OptionalOpen, Join(parts[1..], OptionalOpen));
      SplitAt(parts[0], OptionalOpen, Join(parts[1..], OptionalOpen));
      SplitJoinBracket(parts[1..]);
    }
  }

  /** A string without `[` is a single piece of the escaped-bracket split. */
  lemma {:induction false} SplitWholeTail(s: string)
    requires '[' !in s
    ensures Split(s, OptionalOpen) == [s]
    decreases |s|
  {
    if |s| >= 2 {
      assert !(OptionalOpen <= s) by { assert s[1] != '['; }
      SplitWholeTail(s[1..]);
      assert [s[0]] + s[1..] == s;
    }
  }

  /** No `*` is directly followed by another. */
  predicate NoDoubleStar(s: string)
  {
    forall i :: 0 <= i < |s| - 1 ==> s[i] != '*' || s[i + 1] != '*'
  }

  lemma NoDoubleStarConcat(a: string, b: string)
    requires NoDoubleStar(a) && NoDoubleStar(b)
    requires a == [] || b == [] || a[|a| - 1] != '*' || b[0] != '*'
    ensures NoDoubleStar(a + b)
  {
    var s := a + b;
    forall i | 0 <= i < |s| - 1 ensures s[i] != '*' || s[i + 1] != '*' {
      if i + 1 < |a| {
        assert s[i] == a[i] && s[i + 1] == a[i + 1];
      } else if i >= |a| {
        assert s[i] == b[i - |a|] && s[i + 1] == b[i + 1 - |a|];
      }
    }
  }

  /** Joining non-empty star-free pieces with `*` never puts two stars side by side. */
  lemma {:induction false} JoinNoDoubleStar(parts: seq<string>)
    requires |parts| >= 1
    requires forall i :: 0 <= i < |parts| ==> parts[i] != "" && '*' !in parts[i]
    ensures NoDoubleStar(Join(parts, ParamMark))
    ensures Join(parts, ParamMark)[0] == parts[0][0]
    decreases |parts|
  {
    if |parts| > 1 {
      JoinNoDoubleStar(parts[1..]);
      var rest := Join(parts[1..], ParamMark);
      NoDoubleStarConcat(parts[0], ParamMark);
      NoDoubleStarConcat(parts[0] + ParamMark, rest);
    }
  }

  lemma {:induction false} OptionalTextNoDoubleStar(os: seq<string>)
    requires forall i :: 0 <= i < |os| ==> PlainName(os[i])
    ensures NoDoubleStar(OptionalText(os))
    ensures OptionalText(os) != [] ==> OptionalText(os)[0] == '\\'
    decreases |os|
  {
    if os != [] {
      var piece := "\\[*" + os[0] + "*\\] ";
      JoinThree("\\[", os[0], "\\] ", ParamMark);
      JoinNoDoubleStar(["\\[", os[0], "\\] "]);
      OptionalTextNoDoubleStar(os[1..]);
      NoDoubleStarConcat(piece, OptionalText(os[1..]));
    }
  }

  lemma {:induction false} SplitWholeStars(s: string)
    requires NoDoubleStar(s)
    ensures Split(s, NameMark) == [s]
    decreases |s|
  {
    if |s| >= 2 {
      assert !(NameMark <= s) by { assert s[0] != '*' || s[1] != '*'; }
      SplitWholeStars(s[1..]);
      assert [s[0]] + s[1..] == s;
    }
  }

  /**
   * Round trip: a line written in the documented grammar is parsed back into
   * its name and its required and optional names, in order, each cleaned.
   */
  lemma ParseRendered(name: string, ps: seq<string>, os: seq<string>)
    requires '*' !in name
    requires forall i :: 0 <= i < |ps| ==> PlainName(ps[i])
    requires forall i :: 0 <= i < |os| ==> PlainName(os[i])
    ensures Parse(Render(name, ps, os)) == Success(Synopsis(Clean(name), CleanAll(ps), CleanAll(os)))
  {
    var req := RequiredText(ps) + " ";
    var rest := req + OptionalText(os);
    RenderedParts(name, ps, os);
    RenderedSegments(ps, os);
    var segments := [req] + OptionalSegments(os);
    RenderedRequired(ps);
    OptionalNamesRendered(os);
    OptionalSegmentsLength(os);
    assert segments[1..] == OptionalSegments(os);
    if os != [] {
      assert segments[1] != "";
      assert HasOptional(segments);
    } else {
      assert !HasOptional(segments);
      assert CleanAll(os) == [];
    }
  }

  /** The name marks split a rendered line into nothing, the name and the parameter text. */
  lemma RenderedParts(name: string, ps: seq<string>, os: seq<string>)
    requires '*' !in name
    requires forall i :: 0 <= i < |ps| ==> PlainName(ps[i])
    requires forall i :: 0 <= i < |os| ==> PlainName(os[i])
    ensures Split(Render(name, ps, os), NameMark) == ["", name, RequiredText(ps) + " " + OptionalText(os)]
  {
    var rest := RequiredText(ps) + " " + OptionalText(os);
    ParameterTextWhole(ps, os);
    assert Render(name, ps, os) == NameMark + name + NameMark + rest;
    NameSplit(name, rest);
  }

  /** The parameter text holds no `**`, so it stays one piece. */
  lemma ParameterTextWhole(ps: seq<string>, os: seq<string>)
    requires forall i :: 0 <= i < |ps| ==> PlainName(ps[i])
    requires forall i :: 0 <= i < |os| ==> PlainName(os[i])
    ensures var rest := RequiredText(ps) + " " + OptionalText(os);
      Split(rest, NameMark) == [rest]
  {
    var req := RequiredText(ps) + " ";
    RequiredTextJoin(ps);
    InterleavePlain(ps);
    JoinNoDoubleStar(Interleave(ps));
    OptionalTextNoDoubleStar(os);
    NoDoubleStarConcat(req, OptionalText(os));
    SplitWholeStars(req + OptionalText(os));
  }

  lemma NameSplit(name: string, rest: string)
    requires '*' !in name
    requires Split(rest, NameMark) == [rest]
    ensures Split(NameMark + name + NameMark + rest, NameMark) == ["", name, rest]
  {
    assert NameMark + name + NameMark + rest == "" + NameMark + (name + NameMark + rest);
    SplitAt("", NameMark, name + NameMark + rest);
    NoMatchWithoutHead(name, NameMark, rest);
    SplitAt(name, NameMark, rest);
  }

  /** The escaped brackets split the parameter text into the required text and one piece per optional name. */
  lemma RenderedSegments(ps: seq<string>, os: seq<string>)
    requires forall i :: 0 <= i < |ps| ==> PlainName(ps[i])
    requires forall i :: 0 <= i < |os| ==> PlainName(os[i])
    ensures Split(RequiredText(ps) + " " + OptionalText(os), OptionalOpen)
      == [RequiredText(ps) + " "] + OptionalSegments(os)
  {
    var req := RequiredText(ps) + " ";
    RequiredTextJoin(ps);
    OptionalTextJoin(req, os);
    InterleavePlain(ps);
    CharNotInJoin('[', Interleave(ps), ParamMark);
    var pieces := [req] + OptionalSegments(os);
    OptionalSegmentsLength(os);
    forall i | 0 <= i < |pieces| ensures '[' !in pieces[i] {
      if i > 0 { OptionalSegmentsPlain(os, i - 1); }
    }
    SplitJoinBracket(pieces);
  }

  /** The required text gives back the required names, cleaned. */
  lemma RenderedRequired(ps: seq<string>)
    requires forall i :: 0 <= i < |ps| ==> PlainName(ps[i])
    ensures DropEmptyOnce(CleanAll(Split(RequiredText(ps) + " ", ParamMark))) == CleanAll(ps)
  {
    RequiredTextJoin(ps);
    InterleavePlain(ps);
    SplitJoin(Interleave(ps), '*');
    CleanAllInterleave(ps);
    DropEmptyOnceGapped(CleanAll(ps));
  }

  lemma {:induction false} InterleavePlain(ps: seq<string>)
    requires forall i :: 0 <= i < |ps| ==> PlainName(ps[i])
    ensures forall i :: 0 <= i < |Interleave(ps)| ==>
      Interleave(ps)[i] != "" && '*' !in Interleave(ps)[i] && '[' !in Interleave(ps)[i]
    decreases |ps|
  {
    if ps != [] {
      InterleavePlain(ps[1..]);
      var rest := Interleave(ps[1..]);
      assert forall i :: 2 <= i < |Interleave(ps)| ==> Interleave(ps)[i] == rest[i - 2];
    }
  }

  lemma {:induction false} OptionalSegmentsPlain(os: seq<string>, i: nat)
    requires forall j :: 0 <= j < |os| ==> PlainName(os[j])
    requires i < |os|
    ensures |OptionalSegments(os)| == |os| && '[' !in OptionalSegments(os)[i]
    decreases |os|
  {
    if i == 0 {
      OptionalSegmentsLength(os);
    } else {
      OptionalSegmentsPlain(os[1..], i - 1);
    }
  }

  lemma {:induction false} OptionalSegmentsLength(os: seq<string>)
    ensures |OptionalSegments(os)| == |os|
    decreases |os|
  {
    if os != [] { OptionalSegmentsLength(os[1..]); }
  }
}
