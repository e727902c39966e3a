/**
 * The text the generator writes for one command: the request interface,
 * the client method and its import line, and the stem of the generated
 * file's name. `pascalcase` and `camelcase` come from libraries and are
 * taken as given functions.
 */
module Emitter {
  import opened JsString
  import opened Results
  import opened SynopsisParser

  // ---------------------------------------------------------------------
  // The request interface

  const GuessedType: string := ": /* GUESSED */ string;"

  /** One field line of the interface, without the line break before it. */
  function FieldLine(p: string, mark: string): string
  {
    "  " + p + mark + GuessedType
  }

  /** A line break and a field line for every name, in order. */
  function Fields(ps: seq<string>, mark: string): string
  {
    if ps == [] then "" else Fields(ps[..|ps| - 1], mark) + "\n" + FieldLine(ps[|ps| - 1], mark)
  }

  function InterfaceHeader(pascalName: string): string
  {
    "export interface " + pascalName + "Request {"
  }

  /** The value `parsedSynopsisToTsInterface` returns. */
  function InterfaceText(pascal: string -> string, s: Synopsis): string
  {
    InterfaceHeader(pascal(s.name)) + Fields(s.parameters, "") + Fields(s.optionalParameters, "?") + "\n}"
  }

  /** The field lines of the interface as a reader sees them, one per name. */
  function FieldLines(ps: seq<string>, mark: string): seq<string>
  {
    seq(|ps|, i requires 0 <= i < |ps| => FieldLine(ps[i], mark))
  }

  function InterfaceLines(pascal: string -> string, s: Synopsis): seq<string>
  {
    [InterfaceHeader(pascal(s.name))] + FieldLines(s.parameters, "") + FieldLines(s.optionalParameters, "?") + ["}"]
  }

  /** `parsedSynopsisToTsInterface`: the header, one `+=` per field, then the closing brace. */
  method ToTsInterface(pascal: string -> string, s: Synopsis) returns (result: string)
    ensures result == InterfaceText(pascal, s)
  {
    result := InterfaceHeader(pascal(s.name));
    for i := 0 to |s.parameters|
      invariant result == InterfaceHeader(pascal(s.name)) + Fields(s.parameters[..i], "")
    {
      FieldsSnoc(s.parameters, i, "");
      result := result + "\n" + FieldLine(s.parameters[i], "");
    }
    assert s.parameters[..|s.parameters|] == s.parameters;
    ghost var required := result;
    for i := 0 to |s.optionalParameters|
      invariant result == required + Fields(s.optionalParameters[..i], "?")
    {
      FieldsSnoc(s.optionalParameters, i, "?");
      result := result + "\n" + FieldLine(s.optionalParameters[i], "?");
    }
    assert s.optionalParameters[..|s.optionalParameters|] == s.optionalParameters;
    result := result + "\n}";
  }

  lemma FieldsSnoc(ps: seq<string>, i: nat, mark: string)
    requires i < |ps|
    ensures Fields(ps[..i + 1], mark) == Fields(ps[..i], mark) + "\n" + FieldLine(ps[i], mark)
  {
    assert ps[..i + 1][..i] == ps[..i];
  }

  /** Joining one more piece adds a separator and the piece. */
  lemma {:induction false} JoinSnoc(xs: seq<string>, y: string, sep: string)
    requires xs != []
    ensures Join(xs + [y], sep) == Join(xs, sep) + sep + y
    decreases |xs|
  {
    if |xs| == 1 {
      assert (xs + [y])[1..] == [y];
    } else {
      assert (xs + [y])[1..] == xs[1..] + [y];
      JoinSnoc(xs[1..], y, sep);
    }
  }

  /** The field lines of all names are those of all but the last, then the last one's. */
  lemma FieldLinesSnoc(ps: seq<string>, mark: string)
    requires ps != []
    ensures FieldLines(ps, mark) == FieldLines(ps[..|ps| - 1], mark) + [FieldLine(ps[|ps| - 1], mark)]
  {
  }

  /** Appending the field lines to some lines appends the field text to their join. */
  lemma {:induction false} FieldsAppend(pre: seq<string>, ps: seq<string>, mark: string)
    requires pre != []
    ensures Join(pre + FieldLines(ps, mark), "\n") == Join(pre, "\n") + Fields(ps, mark)
    decreases |ps|
  {
    if ps == [] {
      assert pre + FieldLines(ps, mark) == pre;
    } else {
      var init := ps[..|ps| - 1];
      FieldsAppend(pre, init, mark);
      FieldLinesSnoc(ps, mark);
      assert pre + FieldLines(ps, mark) == (pre + FieldLines(init, mark)) + [FieldLine(ps[|ps| - 1], mark)];
      JoinSnoc(pre + FieldLines(init, mark), FieldLine(ps[|ps| - 1], mark), "\n");
    }
  }

  /** The interface text is its lines joined by line breaks. */
  lemma InterfaceJoin(pascal: string -> string, s: Synopsis)
    ensures Join(InterfaceLines(pascal, s), "\n") == InterfaceText(pascal, s)
  {
    var header := [InterfaceHeader(pascal(s.name))];
    FieldsAppend(header, s.parameters, "");
    var required := header + FieldLines(s.parameters, "");
    FieldsAppend(required, s.optionalParameters, "?");
    var fields := required + FieldLines(s.optionalParameters, "?");
    JoinSnoc(fields, "}", "\n");
  }

  /** No line of the interface holds a line break when no name does. */
  lemma InterfaceLinesUnbroken(pascal: string -> string, s: Synopsis)
    requires '\n' !in pascal(s.name)
    requires forall p :: p in s.parameters + s.optionalParameters ==> '\n' !in p
    ensures forall i :: 0 <= i < |InterfaceLines(pascal, s)| ==> '\n' !in InterfaceLines(pascal, s)[i]
  {
    var lines := InterfaceLines(pascal, s);
    forall i | 0 <= i < |lines|
      ensures '\n' !in lines[i]
    {
      var n := |s.parameters|;
      if 1 <= i <= n {
        assert s.parameters[i - 1] in s.parameters + s.optionalParameters;
      } else if n < i < |lines| - 1 {
        assert s.optionalParameters[i - 1 - n] in s.parameters + s.optionalParameters;
      }
    }
  }

  /**
   * Read line by line, the interface is its header, one line per required
   * parameter, one line per optional parameter (marked `?`), in order, and
   * the closing brace; this needs the names to be free of line breaks, as
   * names taken from one line of a page are.
   */
  lemma InterfaceShape(pascal: string -> string, s: Synopsis)
    requires '\n' !in pascal(s.name)
    requires forall p :: p in s.parameters + s.optionalParameters ==> '\n' !in p
    ensures Split(InterfaceText(pascal, s), "\n") == InterfaceLines(pascal, s)
  {
    InterfaceJoin(pascal, s);
    InterfaceLinesUnbroken(pascal, s);
    SplitJoin(InterfaceLines(pascal, s), '\n');
  }

  // ---------------------------------------------------------------------
  // The client method and its import

  function RequestType(pascalName: string): string
  {
    pascalName + "Request"
  }

  function ResponseType(pascalName: string): string
  {
    pascalName + "Response"
  }

  /** `fnArguments`: the payload parameter, defaulted to `{}` when nothing is required. */
  function FnArguments(requestType: string, s: Synopsis): string
  {
    "payload: " + requestType + (if |s.parameters| == 0 then " = {}" else "")
  }

  /** The signature line of the generated method. */
  function SignatureLine(camelName: string, fnArguments: string, responseType: string): string
  {
    "  " + camelName + "(" + fnArguments + "): Promise<" + responseType + "> {"
  }

  /** The body line of the generated method: the RPC call, keyed by the command's own name. */
  function CallLine(responseType: string, name: string): string
  {
    "    return this._call<" + responseType + ">(\"" + name + "\", payload);"
  }

  const StubEnd: seq<string> := ["  }", "    "]

  /** The text one command adds to `generatedMethods`. */
  function MethodStub(camel: string -> string, pascal: string -> string, s: Synopsis, methodComment: string): string
  {
    var responseType := ResponseType(pascal(s.name));
    "\n  " + methodComment + "\n" +
    SignatureLine(camel(s.name), FnArguments(RequestType(pascal(s.name)), s), responseType) + "\n" +
    CallLine(responseType, s.name) + "\n  }\n    "
  }

  /** The text one command adds to `imports`. */
  function ImportLine(requestType: string, responseType: string, stem: string): string
  {
    "\nimport type { " + requestType + ", " + responseType + " } from \"./" + stem + "\";"
  }

  /** The method takes an empty payload by default exactly when the command has no required parameter. */
  lemma DefaultPayloadIffNoneRequired(pascal: string -> string, s: Synopsis)
    ensures EndsWith(FnArguments(RequestType(pascal(s.name)), s), " = {}") <==> |s.parameters| == 0
    ensures FnArguments(RequestType(pascal(s.name)), s)[..9 + |RequestType(pascal(s.name))|]
      == "payload: " + RequestType(pascal(s.name))
  {
    var request := RequestType(pascal(s.name));
    var args := FnArguments(request, s);
    if |s.parameters| != 0 {
      assert args == "payload: " + pascal(s.name) + "Request";
      assert args[|args| - 5..] == "quest";
    }
  }

  lemma StubText(camel: string -> string, pascal: string -> string, s: Synopsis, methodComment: string)
    ensures var responseType := ResponseType(pascal(s.name));
      MethodStub(camel, pascal, s, methodComment) ==
      "\n  " + methodComment + "\n" +
      Join(StubLines(camel(s.name), FnArguments(RequestType(pascal(s.name)), s), responseType, s.name), "\n")
  {
    var responseType := ResponseType(pascal(s.name));
    var sig := SignatureLine(camel(s.name), FnArguments(RequestType(pascal(s.name)), s), responseType);
    var call := CallLine(responseType, s.name);
    var lines := StubLines(camel(s.name), FnArguments(RequestType(pascal(s.name)), s), responseType, s.name);
    assert lines[1..] == [call] + StubEnd;
    assert lines[2..] == StubEnd;
    assert Join(StubEnd, "\n") == "  }" + "\n" + "    ";
    assert "\n  }\n    " == "\n" + "  }" + "\n" + "    ";
  }

  function StubLines(camelName: string, fnArguments: string, responseType: string, name: string): seq<string>
  {
    [SignatureLine(camelName, fnArguments, responseType), CallLine(responseType, name)] + StubEnd
  }

  /**
   * Read line by line, a method ends with its signature, the RPC call keyed
   * by the untransformed command name (not the camel-cased method name),
   * and the closing lines; this needs the names to be free of line breaks.
   */
  lemma StubCallsRawName(camel: string -> string, pascal: string -> string, s: Synopsis, methodComment: string)
    requires '\n' !in camel(s.name) && '\n' !in pascal(s.name) && '\n' !in s.name
    ensures var lines := Split(MethodStub(camel, pascal, s, methodComment), "\n");
      |lines| >= 4 &&
      lines[|lines| - 4..] == StubLines(camel(s.name), FnArguments(RequestType(pascal(s.name)), s),
                                        ResponseType(pascal(s.name)), s.name)
  {
    var responseType := ResponseType(pascal(s.name));
    var args := FnArguments(RequestType(pascal(s.name)), s);
    var stub := StubLines(camel(s.name), args, responseType, s.name);
    StubText(camel, pascal, s, methodComment);
    StubLinesUnbroken(camel(s.name), args, responseType, s.name);
    SplitJoin(stub, '\n');
    SplitCharConcat("\n  " + methodComment, '\n', Join(stub, "\n"));
    var lines := Split(MethodStub(camel, pascal, s, methodComment), "\n");
    assert lines == Split("\n  " + methodComment, "\n") + stub;
  }

  lemma StubLinesUnbroken(camelName: string, fnArguments: string, responseType: string, name: string)
    requires '\n' !in camelName && '\n' !in responseType && '\n' !in name
    requires '\n' !in fnArguments
    ensures forall i :: 0 <= i < 4 ==> '\n' !in StubLines(camelName, fnArguments, responseType, name)[i]
  {
    var lines := StubLines(camelName, fnArguments, responseType, name);
    assert '\n' !in "  " && '\n' !in "(" && '\n' !in "): Promise<" && '\n' !in "> {";
    assert '\n' !in "    return this._call<" && '\n' !in ">(\"" && '\n' !in "\", payload);";
    assert lines[2] == "  }" && lines[3] == "    ";
  }

  // ---------------------------------------------------------------------
  // The file stem

  const PageSuffix: string := ".7.md"
  const PagePrefix: string := "lightning-"

  /**
   * The stem of a manual page's file name, for pages ending in `.7.md`:
   * the first `.7.md` is cut out, then the first `lightning-`.
   */
  function FileStem(file: string): Option<string>
  {
    if EndsWith(file, PageSuffix) then Some(Replace(Replace(file, PageSuffix, ""), PagePrefix, "")) else None
  }

  /** `replace` cuts a trailing pattern whose first character occurs nowhere before it. */
  lemma CutSuffix(a: string, suffix: string)
    requires suffix != [] && suffix[0] !in a
    ensures Replace(a + suffix, suffix, "") == a
  {
    var s := a + suffix;
    assert s[|a|..] == suffix && s[..|a|] == a;
    assert MatchAt(s, suffix, |a|);
    forall j | 0 <= j < |a|
      ensures !MatchAt(s, suffix, j)
    {
      assert s[j] == a[j];
    }
  }

  /** `replace` cuts a leading pattern. */
  lemma CutPrefix(prefix: string, x: string)
    ensures Replace(prefix + x, prefix, "") == x
  {
    var s := prefix + x;
    assert s[..|prefix|] == prefix && s[|prefix|..] == x;
    assert MatchAt(s, prefix, 0);
  }

  /** A page named `lightning-<command>.7.md` yields the command, when the command holds no dot. */
  lemma FileStemOfPage(command: string)
    requires '.' !in command
    ensures FileStem(PagePrefix + command + PageSuffix) == Some(command)
  {
    assert PageSuffix[0] == '.' && '.' !in PagePrefix;
    assert PageSuffix[0] !in PagePrefix + command;
    CutSuffix(PagePrefix + command, PageSuffix);
    CutPrefix(PagePrefix, command);
  }

  /** Files that are not manual pages are skipped. */
  lemma FileStemSkips(file: string)
    ensures FileStem(file).Some? <==> EndsWith(file, PageSuffix)
  {
  }
}
