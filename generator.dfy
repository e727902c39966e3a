/**
 * The generator's main loop: for every manual page of the documentation
 * directory, in listing order, it reads the page and its JSON schema,
 * normalises the schema, cuts out the synopsis and the description, parses
 * the synopsis and emits the command's TypeScript file, client method and
 * import line. The directory listing, the file contents and the parsed
 * schemas come in as values; `pascalcase`, `camelcase` and the quicktype
 * type compiler come in as functions.
 */
module Generator {
  import opened JsString
  import opened Results
  import opened SynopsisParser
  import opened DocSections
  import opened SchemaFix
  import opened Emitter

  /** A file of the documentation directory: its name and its text. */
  datatype Page = Page(name: string, contents: string)

  /**
   * The library code the generator calls: the two case converters and
   * quicktype, which, given a type name and a schema, either yields the lines
   * of TypeScript it generates or rejects the schema with a message.
   */
  datatype Tools = Tools(pascal: string -> string, camel: string -> string,
                         quicktype: (string, Json) -> Result<seq<string>, string>)

  /** A file written under `generated/`. */
  datatype Emitted = Emitted(path: string, text: string)

  /** What one manual page contributes. */
  datatype Command = Command(file: Emitted, stub: string, importLine: string)

  /** What the loop has built: the generated files, then the two texts spliced into the client. */
  datatype Batch = Batch(files: seq<Emitted>, imports: string, methods: string)

  /** The ways the generator aborts. */
  datatype GenError =
    | MissingSchema(stem: string)                  // no schema file for the page: `readFileSync` throws
    | BadSynopsis(stem: string, error: ParseError) // the synopsis does not parse
    | SchemaRejected(stem: string, message: string) // quicktype rejects the schema: its promise rejects

  /** The generated TypeScript file of one command. */
  function TsFileText(heading: string, realSynopsis: string, descriptionComment: string,
                      requestInterface: string, outputLines: seq<string>): string
  {
    "/**\n * " + heading + "\n * \n * " + realSynopsis + "\n * \n */\n\n" +
    descriptionComment + "\n" + requestInterface + "\n\n" + Join(outputLines, "\n") + "\n"
  }

  function GeneratedPath(stem: string): string
  {
    "./generated/" + stem + ".ts"
  }

  /** The body of the loop for a page whose name ends in `.7.md` and yields `stem`. */
  function EmitPage(page: Page, stem: string, schemas: map<string, Json>, tools: Tools): Result<Command, GenError>
  {
    if stem !in schemas then Failure(MissingSchema(stem))
    else
      var schema := FixHex(schemas[stem]);
      var lines := Split(page.contents, "\n");
      var descriptionLine := FindIndex(lines, DescriptionMarker);
      var responseLine := FindIndex(lines, ReturnMarker);
      var realSynopsis := Gathered(lines, descriptionLine - 2);
      match Parse(realSynopsis)
      case Failure(e) => Failure(BadSynopsis(stem, e))
      case Success(parsed) =>
        var pascalName := tools.pascal(parsed.name);
        match tools.quicktype(ResponseType(pascalName), schema)
        case Failure(message) => Failure(SchemaRejected(stem, message))
        case Success(outputLines) =>
          var text := TsFileText(lines[0], realSynopsis, DescriptionComment(lines, descriptionLine, responseLine),
                                 InterfaceText(tools.pascal, parsed), outputLines);
          Success(Command(
            Emitted(GeneratedPath(stem), text),
            MethodStub(tools.camel, tools.pascal, parsed, MethodDescriptionComment(lines, descriptionLine, responseLine)),
            ImportLine(RequestType(pascalName), ResponseType(pascalName), stem)))
  }

  /** The state after the loop has run over `pages`; the first page that fails aborts the run. */
  function GenerateAll(pages: seq<Page>, schemas: map<string, Json>, tools: Tools): Result<Batch, GenError>
  {
    if pages == [] then Success(Batch([], "", ""))
    else
      match GenerateAll(pages[..|pages| - 1], schemas, tools)
      case Failure(e) => Failure(e)
      case Success(b) =>
        var page := pages[|pages| - 1];
        match FileStem(page.name)
        case None => Success(b)
        case Some(stem) =>
          match EmitPage(page, stem, schemas, tools)
          case Failure(e) => Failure(e)
          case Success(c) => Success(Batch(b.files + [c.file], b.imports + c.importLine, b.methods + c.stub))
  }

  /** The body of the loop for one manual page, step by step. */
  method EmitOnePage(page: Page, stem: string, schemas: map<string, Json>, tools: Tools) returns (r: Result<Command, GenError>)
    requires forall k :: k in schemas ==> WellFormed(schemas[k])
    ensures r == EmitPage(page, stem, schemas, tools)
  {
    if stem !in schemas {
      return Failure(MissingSchema(stem));
    }
    var schema := FixHexLoop(schemas[stem]);
    var lines := Split(page.contents, "\n");
    var heading := lines[0];
    var descriptionLine := FindIndex(lines, DescriptionMarker);
    var responseLine := FindIndex(lines, ReturnMarker);
    var descriptionLines := DescriptionComment(lines, descriptionLine, responseLine);
    var methodDescriptionLines := MethodDescriptionComment(lines, descriptionLine, responseLine);
    var realSynopsis := ReconstructSynopsis(lines, descriptionLine);
    var parsed := ParseSynopsis(realSynopsis);
    if parsed.Failure? {
      return Failure(BadSynopsis(stem, parsed.error));
    }
    var synopsis := parsed.value;
    var requestType := RequestType(tools.pascal(synopsis.name));
    var responseType := ResponseType(tools.pascal(synopsis.name));
    var compiled := tools.quicktype(responseType, schema);
    if compiled.Failure? {
      return Failure(SchemaRejected(stem, compiled.error));
    }
    var outputLines := compiled.value;
    var requestInterface := ToTsInterface(tools.pascal, synopsis);
    var text := TsFileText(heading, realSynopsis, descriptionLines, requestInterface, outputLines);
    var stub := MethodStub(tools.camel, tools.pascal, synopsis, methodDescriptionLines);
    r := Success(Command(Emitted(GeneratedPath(stem), text), stub, ImportLine(requestType, responseType, stem)));
  }

  /**
   * A page fails for one of three reasons, checked in this order: its schema
   * is missing, its synopsis does not parse, or quicktype rejects the fixed
   * schema. Every error names the page's stem.
   */
  lemma EmitPageErrors(page: Page, stem: string, schemas: map<string, Json>, tools: Tools)
    ensures var r := EmitPage(page, stem, schemas, tools);
      var lines := Split(page.contents, "\n");
      var parsed := Parse(Gathered(lines, FindIndex(lines, DescriptionMarker) - 2));
      && (r.Failure? && r.error.MissingSchema? <==> stem !in schemas)
      && (r.Failure? && r.error.BadSynopsis? <==> stem in schemas && parsed.Failure?)
      && (r.Failure? && r.error.SchemaRejected? <==>
           stem in schemas && parsed.Success? &&
           tools.quicktype(ResponseType(tools.pascal(parsed.value.name)), FixHex(schemas[stem])).Failure?)
      && (r.Failure? ==> r.error.stem == stem)
  {
  }

  /** Once a page has failed, the pages after it change nothing: the run has aborted. */
  lemma {:induction false} AbortIsFinal(pages: seq<Page>, n: nat, schemas: map<string, Json>, tools: Tools)
    requires n <= |pages| && GenerateAll(pages[..n], schemas, tools).Failure?
    ensures GenerateAll(pages, schemas, tools) == GenerateAll(pages[..n], schemas, tools)
    decreases |pages| - n
  {
    if n < |pages| {
      var longer := pages[..n + 1];
      assert longer[..n] == pages[..n];
      AbortIsFinal(pages, n + 1, schemas, tools);
    } else {
      assert pages[..n] == pages;
    }
  }

  /** The generator's loop: it appends each manual page's file, method and import, in listing order. */
  method Generate(pages: seq<Page>, schemas: map<string, Json>, tools: Tools) returns (r: Result<Batch, GenError>)
    requires forall stem :: stem in schemas ==> WellFormed(schemas[stem])
    ensures r == GenerateAll(pages, schemas, tools)
  {
    var files: seq<Emitted> := [];
    var imports := "";
    var generatedMethods := "";
    for i := 0 to |pages|
      invariant GenerateAll(pages[..i], schemas, tools) == Success(Batch(files, imports, generatedMethods))
    {
      LoopStep(pages, i, schemas, tools);
      var page := pages[i];
      if EndsWith(page.name, PageSuffix) {
        var fileName := Replace(Replace(page.name, PageSuffix, ""), PagePrefix, "");
        var emitted := EmitOnePage(page, fileName, schemas, tools);
        if emitted.Failure? {
          AbortIsFinal(pages, i + 1, schemas, tools);
          return Failure(emitted.error);
        }
        files := files + [emitted.value.file];
        generatedMethods := generatedMethods + emitted.value.stub;
        imports := imports + emitted.value.importLine;
      }
    }
    assert pages[..|pages|] == pages;
    r := Success(Batch(files, imports, generatedMethods));
  }

  /** What one more page does to a run that got through the pages before it. */
  lemma LoopStep(pages: seq<Page>, i: nat, schemas: map<string, Json>, tools: Tools)
    requires i < |pages| && GenerateAll(pages[..i], schemas, tools).Success?
    ensures var b := GenerateAll(pages[..i], schemas, tools).value;
      var after := GenerateAll(pages[..i + 1], schemas, tools);
      match FileStem(pages[i].name)
      case None => after == Success(b)
      case Some(stem) =>
        match EmitPage(pages[i], stem, schemas, tools)
        case Failure(e) => after == Failure(e)
        case Success(c) => after == Success(Batch(b.files + [c.file], b.imports + c.importLine, b.methods + c.stub))
  {
    assert pages[..i + 1][..i] == pages[..i];
  }

  /** A page the loop gets through: not a manual page, or a manual page that emits. */
  predicate Emits(page: Page, schemas: map<string, Json>, tools: Tools)
  {
    FileStem(page.name).None? || EmitPage(page, FileStem(page.name).value, schemas, tools).Success?
  }

  /** The stems of the manual pages, in listing order. */
  function Stems(pages: seq<Page>): seq<string>
  {
    if pages == [] then []
    else
      Stems(pages[..|pages| - 1]) +
      (match FileStem(pages[|pages| - 1].name) case None => [] case Some(stem) => [stem])
  }

  /** One more page: the run gets through it when it got through the others and the page emits. */
  lemma GenerateStep(pages: seq<Page>, schemas: map<string, Json>, tools: Tools)
    requires pages != []
    ensures var init := pages[..|pages| - 1];
      var last := pages[|pages| - 1];
      && (GenerateAll(pages, schemas, tools).Success? <==>
           GenerateAll(init, schemas, tools).Success? && Emits(last, schemas, tools))
      && (GenerateAll(init, schemas, tools).Failure? ==> GenerateAll(pages, schemas, tools) == GenerateAll(init, schemas, tools))
      && (GenerateAll(init, schemas, tools).Success? && !Emits(last, schemas, tools) ==>
           GenerateAll(pages, schemas, tools).error == EmitPage(last, FileStem(last.name).value, schemas, tools).error)
  {
  }

  /** The run succeeds exactly when every page gets through. */
  lemma {:induction false} GenerateSucceeds(pages: seq<Page>, schemas: map<string, Json>, tools: Tools)
    ensures GenerateAll(pages, schemas, tools).Success? <==> forall k :: 0 <= k < |pages| ==> Emits(pages[k], schemas, tools)
    decreases |pages|
  {
    if pages != [] {
      var init := pages[..|pages| - 1];
      GenerateSucceeds(init, schemas, tools);
      GenerateStep(pages, schemas, tools);
      var last := pages[|pages| - 1];
      if forall k :: 0 <= k < |pages| ==> Emits(pages[k], schemas, tools) {
        forall k | 0 <= k < |init|
          ensures Emits(init[k], schemas, tools)
        {
          assert init[k] == pages[k];
        }
        assert Emits(last, schemas, tools);
        assert GenerateAll(init, schemas, tools).Success?;
        assert GenerateAll(pages, schemas, tools).Success?;
      } else {
        var k :| 0 <= k < |pages| && !Emits(pages[k], schemas, tools);
        if k < |init| {
          assert init[k] == pages[k];
          assert !GenerateAll(init, schemas, tools).Success?;
        } else {
          assert k == |pages| - 1;
        }
        assert !GenerateAll(pages, schemas, tools).Success?;
      }
    }
  }

  /** A failed run carries the error of the first page that does not get through. */
  lemma {:induction false} GenerateFailsAtFirst(pages: seq<Page>, schemas: map<string, Json>, tools: Tools)
    requires GenerateAll(pages, schemas, tools).Failure?
    ensures exists k ::
      && 0 <= k < |pages| && !Emits(pages[k], schemas, tools)
      && (forall j :: 0 <= j < k ==> Emits(pages[j], schemas, tools))
      && GenerateAll(pages, schemas, tools).error == EmitPage(pages[k], FileStem(pages[k].name).value, schemas, tools).error
    decreases |pages|
  {
    var init := pages[..|pages| - 1];
    GenerateStep(pages, schemas, tools);
    assert forall k :: 0 <= k < |init| ==> init[k] == pages[k];
    if GenerateAll(init, schemas, tools).Failure? {
      GenerateFailsAtFirst(init, schemas, tools);
      var k :| 0 <= k < |init| && !Emits(init[k], schemas, tools) &&
        (forall j :: 0 <= j < k ==> Emits(init[j], schemas, tools)) &&
        GenerateAll(init, schemas, tools).error == EmitPage(init[k], FileStem(init[k].name).value, schemas, tools).error;
      assert !Emits(pages[k], schemas, tools);
    } else {
      GenerateSucceeds(init, schemas, tools);
      assert !Emits(pages[|pages| - 1], schemas, tools);
    }
  }

  /** On success there is one generated file per manual page, in listing order, named after its stem. */
  lemma {:induction false} GeneratedFiles(pages: seq<Page>, schemas: map<string, Json>, tools: Tools)
    requires GenerateAll(pages, schemas, tools).Success?
    ensures var b := GenerateAll(pages, schemas, tools).value;
      |b.files| == |Stems(pages)| &&
      forall i :: 0 <= i < |b.files| ==> b.files[i].path == GeneratedPath(Stems(pages)[i])
    decreases |pages|
  {
    if pages != [] {
      var init := pages[..|pages| - 1];
      GeneratedFiles(init, schemas, tools);
    }
  }

  /** A command's import names the module the same command is written to. */
  lemma ImportMatchesFile(page: Page, stem: string, schemas: map<string, Json>, tools: Tools)
    requires EmitPage(page, stem, schemas, tools).Success?
    ensures var c := EmitPage(page, stem, schemas, tools).value;
      c.file.path == "./generated/" + stem + ".ts" &&
      EndsWith(c.importLine, " from \"./" + stem + "\";")
  {
    var c := EmitPage(page, stem, schemas, tools).value;
    var tail := " from \"./" + stem + "\";";
    var head := "\nimport type { " + RequestType(tools.pascal(EmitParsed(page, stem, schemas, tools).name)) + ", " +
      ResponseType(tools.pascal(EmitParsed(page, stem, schemas, tools).name)) + " }";
    assert c.importLine == head + tail;
    assert (head + tail)[|head + tail| - |tail|..] == tail;
  }

  /** The synopsis a successful page was parsed into. */
  function EmitParsed(page: Page, stem: string, schemas: map<string, Json>, tools: Tools): Synopsis
    requires EmitPage(page, stem, schemas, tools).Success?
  {
    var lines := Split(page.contents, "\n");
    Parse(Gathered(lines, FindIndex(lines, DescriptionMarker) - 2)).value
  }

  // ---------------------------------------------------------------------
  // The text of a generated file

  /** The opening comment of a generated file, line by line: the page heading, then the rebuilt synopsis. */
  function HeaderLines(heading: string, realSynopsis: string): seq<string>
  {
    ["/**", " * " + heading, " * ", " * " + realSynopsis, " * ", " */", ""]
  }

  /**
   * When neither the heading nor the synopsis holds a line break, the file's
   * first seven lines are its opening comment and a blank line, and the rest
   * of the file is the description comment, the request interface and the
   * quicktype output, in that order.
   */
  lemma FileTextLines(heading: string, realSynopsis: string, descriptionComment: string,
                       requestInterface: string, outputLines: seq<string>)
    requires '\n' !in heading && '\n' !in realSynopsis
    ensures var text := TsFileText(heading, realSynopsis, descriptionComment, requestInterface, outputLines);
      var rest := descriptionComment + "\n" + requestInterface + "\n\n" + Join(outputLines, "\n") + "\n";
      Split(text, "\n") == HeaderLines(heading, realSynopsis) + Split(rest, "\n")
  {
    var rest := descriptionComment + "\n" + requestInterface + "\n\n" + Join(outputLines, "\n") + "\n";
    var h := HeaderLines(heading, realSynopsis);
    FileTextJoin(heading, realSynopsis, rest);
    assert TsFileText(heading, realSynopsis, descriptionComment, requestInterface, outputLines)
      == "/**\n * " + heading + "\n * \n * " + realSynopsis + "\n * \n */\n\n" + rest;
    SplitJoinedLines(h, rest, '\n');
  }

  /** The template's opening comment is its header lines joined by line breaks. */
  lemma FileTextJoin(heading: string, realSynopsis: string, rest: string)
    ensures Join(HeaderLines(heading, realSynopsis) + [rest], "\n")
      == "/**\n * " + heading + "\n * \n * " + realSynopsis + "\n * \n */\n\n" + rest
  {
    var h := HeaderLines(heading, realSynopsis);
    JoinCons(h[6], [rest], "\n");
    JoinCons(h[5], [h[6], rest], "\n");
    JoinCons(h[4], [h[5], h[6], rest], "\n");
    JoinCons(h[3], [h[4], h[5], h[6], rest], "\n");
    JoinCons(h[2], [h[3], h[4], h[5], h[6], rest], "\n");
    JoinCons(h[1], [h[2], h[3], h[4], h[5], h[6], rest], "\n");
    JoinCons(h[0], [h[1], h[2], h[3], h[4], h[5], h[6], rest], "\n");
    assert h + [rest] == [h[0], h[1], h[2], h[3], h[4], h[5], h[6], rest];
  }

  /**
   * The file written for a page: its opening comment holds the page's first
   * line and the synopsis rebuilt above DESCRIPTION (the one that parsed),
   * followed by the description comment, the request interface of the
   * parsed synopsis and quicktype's output for the fixed schema.
   */
  lemma EmitPageFile(page: Page, stem: string, schemas: map<string, Json>, tools: Tools)
    requires EmitPage(page, stem, schemas, tools).Success?
    ensures var c := EmitPage(page, stem, schemas, tools).value;
      var lines := Split(page.contents, "\n");
      var descriptionLine := FindIndex(lines, DescriptionMarker);
      var responseLine := FindIndex(lines, ReturnMarker);
      var realSynopsis := Gathered(lines, descriptionLine - 2);
      var parsed := EmitParsed(page, stem, schemas, tools);
      var rest := DescriptionComment(lines, descriptionLine, responseLine) + "\n" + InterfaceText(tools.pascal, parsed) + "\n\n"
        + Join(tools.quicktype(ResponseType(tools.pascal(parsed.name)), FixHex(schemas[stem])).value, "\n") + "\n";
      && Parse(realSynopsis) == Success(parsed)
      && tools.quicktype(ResponseType(tools.pascal(parsed.name)), FixHex(schemas[stem])).Success?
      && Split(c.file.text, "\n") == HeaderLines(lines[0], realSynopsis) + Split(rest, "\n")
  {
    var lines := Split(page.contents, "\n");
    SplitPiecesLack(page.contents, '\n');
    GatheredLacks(lines, FindIndex(lines, DescriptionMarker) - 2, '\n');
    var parsed := EmitParsed(page, stem, schemas, tools);
    FileTextLines(lines[0], Gathered(lines, FindIndex(lines, DescriptionMarker) - 2),
                  DescriptionComment(lines, FindIndex(lines, DescriptionMarker), FindIndex(lines, ReturnMarker)),
                  InterfaceText(tools.pascal, parsed),
                  tools.quicktype(ResponseType(tools.pascal(parsed.name)), FixHex(schemas[stem])).value);
  }

  // ---------------------------------------------------------------------
  // What the run collects, in listing order

  /** The commands of the manual pages that emit, in listing order. */
  function Commands(pages: seq<Page>, schemas: map<string, Json>, tools: Tools): seq<Command>
  {
    if pages == [] then []
    else
      var last := pages[|pages| - 1];
      Commands(pages[..|pages| - 1], schemas, tools) +
      (match FileStem(last.name)
       case None => []
       case Some(stem) =>
         match EmitPage(last, stem, schemas, tools)
         case Failure(_) => []
         case Success(c) => [c])
  }

  /** The import lines of `cs`, one after another. */
  function ImportsOf(cs: seq<Command>): string
  {
    if cs == [] then "" else ImportsOf(cs[..|cs| - 1]) + cs[|cs| - 1].importLine
  }

  /** The method stubs of `cs`, one after another. */
  function StubsOf(cs: seq<Command>): string
  {
    if cs == [] then "" else StubsOf(cs[..|cs| - 1]) + cs[|cs| - 1].stub
  }

  /**
   * On success the run holds, for every manual page in listing order, its
   * generated file, and `imports` and `generatedMethods` are the pages'
   * import lines and method stubs concatenated in that same order.
   */
  lemma {:induction false} GeneratedBatch(pages: seq<Page>, schemas: map<string, Json>, tools: Tools)
    requires GenerateAll(pages, schemas, tools).Success?
    ensures var b := GenerateAll(pages, schemas, tools).value;
      var cs := Commands(pages, schemas, tools);
      && |cs| == |Stems(pages)| == |b.files|
      && (forall i :: 0 <= i < |cs| ==> b.files[i] == cs[i].file)
      && b.imports == ImportsOf(cs)
      && b.methods == StubsOf(cs)
    decreases |pages|
  {
    if pages != [] {
      var init := pages[..|pages| - 1];
      GeneratedBatch(init, schemas, tools);
      var ci := Commands(init, schemas, tools);
      var last := pages[|pages| - 1];
      match FileStem(last.name)
      case None =>
        assert Commands(pages, schemas, tools) == ci;
        assert GenerateAll(pages, schemas, tools) == GenerateAll(init, schemas, tools);
      case Some(stem) =>
        var c := EmitPage(last, stem, schemas, tools).value;
        var cs := ci + [c];
        assert Commands(pages, schemas, tools) == cs;
        assert cs[..|cs| - 1] == ci && cs[|cs| - 1] == c;
    }
  }
}
