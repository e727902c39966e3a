# c-lightning.ts-gen: a Dafny model of the binding generator

`src/generate.ts` turns the Core Lightning manual pages (`lightning-<command>.7.md`)
and their JSON schemas into TypeScript bindings. For every page it:

1. derives the command's file stem from the page's file name;
2. reads the page's response schema and rewrites it with `fixHex`. `fixHex` retypes the
   hex-like and integer-like `type` tags and drops deprecated entries;
3. cuts the `DESCRIPTION` section into two doc comments;
4. walks up from the `DESCRIPTION` heading to put back the one-line `SYNOPSIS`;
5. parses that synopsis with `parseSynopsis` into a command name, required parameters
   and optional parameters;
6. writes `generated/<stem>.ts`, which holds the request interface and the quicktype
   response types;
7. adds one client method stub, which calls `this._call("<name>", payload)`, and one
   `import type` line.

The model follows that structure, one module per stage:

| file | module | what it holds |
|---|---|---|
| `results.dfy` | `Results` | `Result` and `Option` |
| `js_string.dfy` | `JsString` | the JavaScript string operations the generator uses: `split`, `join`, `replaceAll`, `replace`, `trim`, `slice`, `findIndex`, `includes`, `endsWith` |
| `synopsis_parser.dfy` | `SynopsisParser` | `parseSynopsis`, as a specification function `Parse` and a method `ParseSynopsis` that performs the source's loops (the `splice` inside `forEach` and the `push` loop) |
| `synopsis_examples.dfy` | `SynopsisExamples` | the synopses of the checked-in bindings, parsed |
| `doc_sections.dfy` | `DocSections` | the backward synopsis scan, and the two description comments |
| `schema_fix.dfy` | `SchemaFix` | `fixHex` on a JSON value tree, as a function `FixHex` and a method `FixHexLoop` that follows the source's three retyping `if`s and its key loop |
| `emitter.dfy` | `Emitter` | the request interface, the method stub, the import line and the file stem |
| `emitter_examples.dfy` | `EmitterExamples` | the request interfaces of the checked-in bindings, line by line |
| `generator.dfy` | `Generator` | one page's output, and the loop over all pages |

A few modelling choices:

- `pascalcase`, `camelcase` and `quicktypeJSONSchema` are library calls. The two case
  converters are parameters of type `string -> string`. quicktype is a parameter of type
  `(string, Json) -> Result<seq<string>, string>`: it either yields the lines it generates
  or rejects the schema with a message. The properties hold for any such functions; the
  properties that quicktype itself promises about its output are not part of this model.
- The generator reads the manual directory, the page texts and the schema files. These
  become values: a sequence of `Page(name, contents)` in directory order, and a map from
  stem to parsed schema.
- The run builds `imports` and `generatedMethods` by appending to strings. It is modelled
  as a `Batch` of emitted files, import lines and method stubs. `Generate` is a loop
  proved equal to the recursive `GenerateAll`.
- The model returns a `Failure` in the cases where the JavaScript throws or an awaited
  promise rejects: a missing schema file, a synopsis that `parseSynopsis` cannot take
  apart (see below), and quicktype rejecting the schema (`EmitPageErrors`). A failure ends
  the run, as the uncaught exception does. Exceptions that only the left-out steps can
  raise (`JSON.parse` of a malformed schema, a failed write) are not modelled.

### Where this model follows the code rather than the documentation

- `parseSynopsis` does not refuse an empty command name: `parts[1] === ""` is only logged
  (lines 34-36). Only an `undefined` part throws. `Parse` therefore fails exactly when
  `split("**")` yields fewer than three parts, or when the optional list is entered (the
  second `\[` segment is non-empty) and some segment after the first has no `*`
  (`ParseFailures`). When the second segment is empty the optional list is never
  entered: `**x** *a* \[\[y` parses, with no optional names.
- Each name is trimmed before its backslashes are removed (lines 37, 41 and 56). A name can
  therefore keep a space that a backslash hid: `Clean("\\ a") == " a"`
  (`CleanCanLeaveSpace`).
- The pubkey test on line 88 uses loose equality (`==`). An array `["pubkey"]`, or any
  nesting of one-element arrays around `"pubkey"`, is also retyped to `"string"`
  (`LoosePubkey`).
- `delete` on an array element leaves a hole that `JSON.stringify` writes as `null`. The
  model puts `JNull` there.

## Model

| member | source | states |
|---|---|---|
| SynopsisParser.ParseSynopsis | src/generate.ts:28-64 | the method, with the source's loops, returns exactly `Parse(synopsis)`: the name, required and optional lists, or the failure the source throws on |
| SynopsisParser.SpliceEmptyTokens | src/generate.ts:42-47 | the literal `splice`-inside-`forEach` loop yields `DropEmptyOnce(tokens)`: each empty token is removed and the token after it is skipped unexamined |
| SynopsisParser.PushOptionalNames | src/generate.ts:48-58 | the `push` loop over the `\[` segments yields `OptionalNames`, or fails at the first segment without `*` |
| SynopsisParser.SpliceStep | src/generate.ts:43-46 | removing an empty token at index `i` leaves the elements the loop still visits unchanged |
| SynopsisParser.DropEmptyOnceGapped | src/generate.ts:42-47 | when the tokens are the names with one empty token before, between and after them, the splice loop leaves exactly the names |
| SynopsisParser.DropEmptyOnceKeepsNames | src/generate.ts:42-47 | the splice loop never drops a non-empty token |
| SynopsisParser.DropEmptyOnceClean | src/generate.ts:42-47 | without two empty tokens in a row, no empty token survives |
| SynopsisParser.DropEmptyOnceSkips | src/generate.ts:43-46 | two empty tokens in a row leave one of them behind: `["", "", "amount"]` becomes `["", "amount"]` |
| SynopsisParser.DropEmptyOnceSubset | src/generate.ts:42-47 | the splice loop introduces no character that its input did not contain |
| SynopsisParser.CleanHasNoBackslash | src/generate.ts:37 | a cleaned name contains no backslash |
| SynopsisParser.CleanTrimmedWithoutBackslash | src/generate.ts:37 | without backslashes, cleaning is trimming, and the result is trimmed |
| SynopsisParser.CleanCanLeaveSpace | src/generate.ts:37 | trimming before removing backslashes can leave a leading space: `"\\ a"` cleans to `" a"` |
| SynopsisParser.CleanPlain | src/generate.ts:37 | a trimmed name without backslashes is unchanged |
| SynopsisParser.CleanAllNoBackslash | src/generate.ts:38-41 | the mapped token list keeps its length and has no backslash in any element |
| SynopsisParser.OptionalNamesClean | src/generate.ts:56 | every optional name found contains no backslash |
| SynopsisParser.ParsedNamesClean | src/generate.ts:37-63 | in a successful parse, the name and every required and optional parameter are free of backslashes |
| SynopsisParser.StarSplit | src/generate.ts:53 | `split("*")[1]` exists exactly when the segment contains a `*` |
| SynopsisParser.OptionalNamesShape | src/generate.ts:50-57 | the optional list succeeds iff every segment has a `*`; then it has one name per segment, the cleaned text after the first `*` |
| SynopsisParser.OptionalNamesFirstFailure | src/generate.ts:52-57 | a failure names the first segment without a `*`, and every earlier segment has one |
| SynopsisParser.SplitSingleIff | src/generate.ts:33 | `split` yields one piece iff the separator does not occur |
| SynopsisParser.ParseFailures | src/generate.ts:33-58 | the parse fails with `NoCommandName` iff the text has no `**`, and with `NoParameterText` iff `split("**")` yields exactly two pieces (so `"***"`, with two overlapping `**`, fails this way); it fails at all iff there are fewer than three parts, or the optional list is entered and some `\[` segment has no `*` |
| SynopsisParser.ParseOptionalFailure | src/generate.ts:49-57 | when the parameter text is present, a failure names the first optional segment without `*` |
| SynopsisParser.ParseOptionalShape | src/generate.ts:48-58 | in a successful parse, the optional list is empty unless a second `\[` segment exists and is non-empty (the truthiness test); otherwise it holds one cleaned name per segment after the first |
| SynopsisParser.RequiredTextJoin | src/generate.ts:38-41 | the rendered required list is the names joined by `*` with a blank between each pair |
| SynopsisParser.OptionalTextJoin | src/generate.ts:49-50 | the rendered optional list is the segments joined by `\[` |
| SynopsisParser.CleanAllInterleave | src/generate.ts:38-41 | cleaning the split required list gives the cleaned names with an empty token between each pair |
| SynopsisParser.OptionalNamesRendered | src/generate.ts:52-57 | the segments of a rendered optional list parse back to the cleaned names |
| SynopsisParser.SplitJoinBracket | src/generate.ts:39 | splitting a `\[`-join of bracket-free pieces gives back the pieces |
| SynopsisParser.ParseRendered | src/generate.ts:28-64 | round trip: a synopsis rendered in the manual's form, `**name** *p*... \[*o*\]...`, parses to its cleaned name, required list and optional list |
| SynopsisParser.RenderedParts | src/generate.ts:33 | a rendered synopsis splits on `**` into `""`, the name and the parameter text |
| SynopsisParser.RenderedSegments | src/generate.ts:38-50 | the parameter text splits on `\[` into the required text and one segment per optional name |
| SynopsisParser.RenderedRequired | src/generate.ts:38-47 | the required text, split on `*`, cleaned and spliced, gives back the cleaned required names |
| SynopsisExamples.ParseDecode | generated/decode.ts:4 | the `decode` synopsis parses to name `decode`, required `[string]` and no optional names |
| SynopsisExamples.ParseListinvoices | generated/listinvoices.ts:4 | the `listinvoices` synopsis parses to no required names and `[label, invstring, payment_hash, offer_id]` optional |
| SynopsisExamples.ParseAutocleaninvoice | generated/autocleaninvoice.ts:4 | the `autocleaninvoice` synopsis parses to optional `[cycle_seconds, expired_by]`, with the escaping backslashes removed |
| SynopsisExamples.ParseOffer | src/generate.ts:28-64 | a synopsis with two required and two optional names (`**offer** *amount* *description* \[*issuer*\] \[*label*\]`) parses to both lists in order |
| DocSections.ReconstructSynopsis | src/generate.ts:158-169 | the backward loop, with its `break`, its `i--; continue` and its prepending, returns `Gathered(lines, descriptionLine - 2)`; the result is empty when `DESCRIPTION` is on line 0 or 1, or not found |
| DocSections.GatheredIsSelection | src/generate.ts:158-169 | the reconstructed synopsis is the picked lines, in top-to-bottom order, each followed by one space |
| DocSections.Picked | src/generate.ts:159-169 | the picked line numbers are in range and strictly increasing |
| DocSections.PickedLines | src/generate.ts:160-167 | no picked line is blank, and no picked line starts with an upper-case letter (the converse is `ReachedPlainIsPicked`) |
| DocSections.PickedInRest | src/generate.ts:158-169 | the scan from any start keeps everything that the scan from a line it reaches keeps |
| DocSections.ReachedPlainIsPicked | src/generate.ts:160-168 | a plain line (neither blank nor a heading) that the scan reaches, from any start, is kept |
| DocSections.PickedIsReached | src/generate.ts:158-169 | every line the scan keeps is one that it reaches |
| DocSections.PickedAboveReached | src/generate.ts:158-169 | from any start, what the scan keeps lies below a line it reaches, or is kept by the scan from that line |
| DocSections.HeadingDropsLineAbove | src/generate.ts:164-166 | a heading that the scan reaches, from any start (the real one is two lines above `DESCRIPTION`), is dropped together with the line above it |
| DocSections.HeadingJumpedOver | src/generate.ts:164-166 | the exception: a heading directly below another heading is jumped over by that heading's double step and never examined, so the line above it is kept (`["", "a", "B", "C", ...]` from line 3 gives `"a "`) |
| DocSections.PickedBelowBlank | src/generate.ts:160-166 | the scan stops at the first blank line it reaches: nothing at or above it is picked. The exception is a blank line directly above a heading, which the heading's double step jumps over |
| DocSections.GatheredEndsInSpace | src/generate.ts:168 | the synopsis is empty or ends in a space |
| DocSections.PlainBlock | src/generate.ts:158-169 | for a block of non-blank, non-heading lines under a blank line, the synopsis is that block joined with spaces |
| DocSections.GatheredLacks | src/generate.ts:158-169 | a character other than the space that no line of the page holds does not appear in the rebuilt synopsis; in particular the synopsis holds no line break |
| DocSections.BodyHasNoCommentClose | src/generate.ts:140-155 | after the `*/` escape, the description body contains no `*/` |
| DocSections.CommentClosesOnlyAtEnd | src/generate.ts:141-155 | the comment has no `*/` before its final one iff the body does not start with `/` (a body starting with `/` closes the comment at once, since `/**` + `/` contains `*/`) |
| DocSections.DescriptionCommentShape | src/generate.ts:140-155 | both comments are `/**`, the escaped body, and their own closing line; each is closed only at its end unless the body starts with `/` |
| DocSections.SliceBetweenMarkers | src/generate.ts:140-144 | with both markers present and in order, the slice runs from the second line below `DESCRIPTION` up to, but not including, the line just above `RETURN VALUE` |
| DocSections.SliceWithoutReturnValue | src/generate.ts:135-143 | a missing `RETURN VALUE` gives end `-2`: the slice drops the last two lines |
| DocSections.SliceReversedMarkers | src/generate.ts:140-155 | when `RETURN VALUE` is on line 1 or later but at most three lines below `DESCRIPTION`, the slice and the description body are empty |
| DocSections.SliceReturnValueOnFirstLine | src/generate.ts:135-151 | when `RETURN VALUE` is on line 0, the slice end is -1, which counts from the end: the description runs from two lines below `DESCRIPTION` to the line before the last |
| JsString.FindIndex | src/generate.ts:132-137 | the result is -1 when no line contains the marker, otherwise the first line that does |
| JsString.IndexOf | src/generate.ts:120 | the first occurrence of the pattern, or -1 |
| JsString.Replace | src/generate.ts:120 | `replace` without a match changes nothing; otherwise it replaces only the first occurrence |
| JsString.JoinSplit | src/generate.ts:129 | joining the split pieces on the same separator gives back the text |
| JsString.SplitJoin | src/generate.ts:129 | splitting a join of pieces free of a one-character separator gives back the pieces |
| JsString.SplitAt | src/generate.ts:33 | `split` cuts at the leftmost occurrence of the separator |
| JsString.ReplaceAllIsSplitJoin | src/generate.ts:145-146 | `replaceAll` equals split-then-join with the replacement |
| JsString.RemoveCharGone | src/generate.ts:37 | removing every backslash leaves none |
| JsString.RemoveCharKeeps | src/generate.ts:37 | removing a character that is absent changes nothing |
| JsString.EscapeRemovesCommentClose | src/generate.ts:146 | after `replaceAll("*/", "*\\/")` the text contains no `*/` |
| JsString.TrimIsInfix | src/generate.ts:37 | `trim` returns a contiguous piece of its input, with only white space cut on each side |
| JsString.TrimIsTrimmed | src/generate.ts:37 | the result of `trim` starts and ends without white space |
| JsString.TrimTrimmed | src/generate.ts:37 | `trim` leaves trimmed text unchanged |
| SchemaFix.NewType | src/generate.ts:84-105 | a `type` tag is kept, or becomes `"string"` or `"number"`, and never grows |
| SchemaFix.RetypeInSequence | src/generate.ts:84-105 | the three `if`s run in order equal the one retyping table `NewType` |
| SchemaFix.NewTypeChanges | src/generate.ts:84-105 | a tag changes iff it is a hex-like or integer-like tag, or a loose `"pubkey"`; it becomes `"string"` iff it is hex-like, `"string"` or a loose pubkey; it becomes `"number"` iff it is `u8`/`u16`/`u32`/`msat`/`u64` or `"number"` |
| SchemaFix.NewTypeIdempotent | src/generate.ts:84-105 | retyping a retyped tag changes nothing |
| SchemaFix.FixHexLoop | src/generate.ts:83-113 | the method, following the source's retyping and its loop over a snapshot of the keys, returns `FixHex(v)` |
| SchemaFix.FixArrayLoop | src/generate.ts:106-111 | on an array, each deprecated element becomes a hole and each other element is fixed recursively |
| SchemaFix.RetypeObject | src/generate.ts:84-105 | on an object, only the `type` member is retyped; every other member keeps its key and value, and the member order is kept |
| SchemaFix.FixObjectLoop | src/generate.ts:106-111 | deleting deprecated members and recursing into the rest, key by key, gives `FixMembers(ms)` |
| SchemaFix.FixElemsAt | src/generate.ts:107-110 | an array keeps its length; element `i` becomes a hole if deprecated, and is fixed otherwise |
| SchemaFix.FixMembersMember | src/generate.ts:107-110 | a member is in the result iff the input had a member with that key whose retyped value was not deprecated, with the fixed value |
| SchemaFix.FixMembersKeys | src/generate.ts:107-110 | the fix adds no key |
| SchemaFix.FixHexKind | src/generate.ts:83-113 | objects stay objects and arrays stay arrays; scalars are untouched; truthiness is kept |
| SchemaFix.DeprecatedAfterFix | src/generate.ts:108 | a value is deprecated after the fix only if it was before |
| SchemaFix.FixHexRemovesDeprecated | src/generate.ts:106-111 | no deprecated value is left below the root, at any depth |
| SchemaFix.TypeStable | src/generate.ts:84-105 | a retyped tag, once fixed, is not retyped again |
| SchemaFix.FixHexIdempotent | src/generate.ts:83-113 | running `fixHex` twice gives the same tree as running it once |
| Emitter.ToTsInterface | src/generate.ts:66-80 | the method's appending loops build `InterfaceText`: the header, one field per required name, one `?` field per optional name, then `}` |
| Emitter.InterfaceJoin | src/generate.ts:66-80 | the interface text is its lines joined by newlines |
| Emitter.InterfaceShape | src/generate.ts:66-80 | when no name holds a newline, the interface splits into exactly: `export interface <Pascal>Request {`, the required fields, the optional fields marked `?`, and `}` |
| Emitter.DefaultPayloadIffNoneRequired | src/generate.ts:197-202 | the argument list always starts `payload: <Pascal>Request`, and ends with ` = {}` iff there is no required parameter |
| Emitter.StubText | src/generate.ts:203-208 | the stub is the method comment followed by the signature, the `_call` line, `}` and the trailing indent |
| Emitter.StubCallsRawName | src/generate.ts:203-208 | the stub's last four lines are the signature (camel-cased name), the `_call` line keyed by the raw command name, `}` and the indent |
| Emitter.FileStemOfPage | src/generate.ts:119-120 | the page `lightning-<command>.7.md` has stem `<command>` |
| Emitter.FileStemSkips | src/generate.ts:119 | a file is processed iff its name ends with `.7.md` |
| EmitterExamples.DecodeInterface | generated/decode.ts:14-16 | the `decode` request interface is exactly the three checked-in lines |
| EmitterExamples.ListinvoicesInterface | generated/listinvoices.ts:17-22 | the `listinvoices` request interface is exactly the six checked-in lines |
| EmitterExamples.AutocleaninvoiceInterface | generated/autocleaninvoice.ts:22-25 | the `autocleaninvoice` request interface is exactly the four checked-in lines |
| Generator.EmitOnePage | src/generate.ts:119-210 | the method that handles one page returns `EmitPage`: a missing schema, a bad synopsis or a schema quicktype rejects fails; otherwise it returns the file, the stub and the import |
| Generator.Generate | src/generate.ts:115-212 | the loop over the directory listing returns `GenerateAll`: pages not ending in `.7.md` are skipped, and the first failure aborts the run |
| Generator.AbortIsFinal | src/generate.ts:118-212 | once a prefix of the listing fails, the whole run fails with that error |
| Generator.GenerateSucceeds | src/generate.ts:118-212 | the run succeeds iff every page emits |
| Generator.GenerateFailsAtFirst | src/generate.ts:118-212 | a failing run fails with the error of the first page that does not emit, and every page before it emits |
| Generator.GeneratedFiles | src/generate.ts:189-192 | one file per processed page, in listing order, at `./generated/<stem>.ts` |
| Generator.FileTextLines | src/generate.ts:177-188 | when the heading and the synopsis hold no line break, the file's first seven lines are `/**`, ` * <heading>`, ` * `, ` * <synopsis>`, ` * `, ` */` and a blank line; the lines after them are those of the description comment, the request interface and the quicktype output, in that order |
| Generator.EmitPageErrors | src/generate.ts:121-176 | a page fails exactly when its schema is missing, or else its rebuilt synopsis does not parse, or else quicktype rejects the fixed schema; the error says which and names the page's stem |
| Generator.EmitPageFile | src/generate.ts:129-188 | the file written for a page opens with the page's first line and the synopsis rebuilt above `DESCRIPTION`, which is the text that parsed, and quicktype accepted the fixed schema; the lines after them are those of the description comment, the parsed synopsis's request interface and quicktype's output for the fixed schema |
| Generator.GeneratedBatch | src/generate.ts:115-210 | on success, the run has one generated file per manual page, in listing order, and `imports` and `generatedMethods` are those pages' import lines and method stubs, concatenated in the same order |
| Generator.ImportMatchesFile | src/generate.ts:189-210 | each page's import line names the module `./<stem>`, which is the file just written |

## Left out

- File-system I/O (`readdirSync`, `readFileSync`, `writeFile`) and `await` are left out.
  The listing, page texts and parsed schemas are inputs, and the written files are outputs.
- `JSON.parse` of the schema text is left out. The schema arrives as a `Json` value with
  distinct keys in each object.
- The number in `JNum` is a `real`, not a double.
- `JSON.stringify` and `quicktypeJSONSchema` (lines 172-176) are left out. quicktype's
  outcome, its output lines or a rejection, is an uninterpreted function of the response
  type name and the fixed schema.
- `pascalcase` and `camelcase` are left out. They are uninterpreted string functions, and
  the worked examples state the one value of each that they rely on.
- The debug dump to `./debug/<stem>.json` (lines 193-196) is left out. It writes
  `JSON.stringify(jsonSchema)` and does not affect the generated bindings.
- `console.log` on lines 35 and 54 is left out. It has no effect on the result.
- The write of `./generated/main.ts` after the loop (lines 214-247) is left out. That file
  is the `RPCClient` class template, with its socket-based `_call`, into which `imports`
  and `generatedMethods` are spliced. The model stops at those two texts, which are
  `Batch.imports` and `Batch.methods` (`GeneratedBatch`).
- `src/baseClient.ts` is a hand-written client class that the generator does not use. It
  is not part of this model.
- SchemaFix.FixHexLoop: mutation of a shared heap object is not modelled, because the
  schema is a value tree. If two keys held the same object, the source would fix it twice
  through the alias. The JSON input of `JSON.parse` never shares, so this cannot happen
  there.
- SchemaFix.FixHex: objects are ordered member lists. JavaScript's reordering of
  integer-like keys in `Object.keys` is not modelled.
- SchemaFix.NewType: the three `if` statements are one table. `RetypeInSequence` proves
  that the table equals the three tests run in sequence, and `RetypeObject` performs
  them in that order.
- Emitter.FileStem: the two `replace` calls are modelled. `FileStemOfPage` states their
  result only for names of the form `lightning-<command>.7.md`, where `<command>` contains
  no `.`.
- Generator.Generate: an uncaught exception that escapes the loop is a `Failure`. The
  files already written for earlier pages are not modelled.
- The `splice` inside `forEach` (lines 42-47) is modelled as written: an empty token
  that directly follows a removed one stays in the required list (`DropEmptyOnceSkips`).
  The rest of the model keeps this behaviour rather than a corrected one.
