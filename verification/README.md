# Verified model of the Vuoro contract boundary

Vuoro's packages meet untrusted or fallible parties at a few small, branch-heavy places: the compiler that
flattens an HTTP operation into one MCP tool schema, the strict JSON readers of the Python and TypeScript SDKs,
the crash-tolerant recovery log, the observation client, the two-arm comparison, the glob translation of the
knowledge catalog, and the two validators of a composition manifest. This project models those places in Dafny
and proves what they promise for every input, every run and every reachable state.

`dafny verify dfyconfig.toml` checks everything.

## How the model is laid out

- **Strict JSON.** `Unicode`, `JsonValues`, `JsonSyntax` (syntax trees, their spelling, a parser that builds them),
  `JsonGrammar` (the parser accepts exactly the spellings, and a text has one tree), `JsonReading` (what a tree
  stands for and what the strict reader adds), `StrictParser` (the TypeScript class), `TwoPass`,
  `TwoPassAgreement`, `TwoPassDecoder` (the Python scanner, decoder and final check), `JsonPrinting`, `JsonSize`,
  `SizeAgreement`, `JsonLexicon` and `JsonNesting` (what the readers answer, mark by mark and part by part),
  `JsonWriting` (what the serialisers put down, character by character).
  The grammar is sections 2 to 7 of RFC 8259; the extra restrictions are those of sections 2.1 to 2.3 of RFC 7493.
- **Schema compiler.** `Schemas`, `SchemaEval` (an evaluator for the supported vocabulary of JSON Schema 2020-12,
  well founded by the rank of a resource), `SchemaMeaning` (what it says of each keyword), `RefGraph` (the
  explicit-stack and the recursive search), `ToolCompiler`, `ToolAdmission`, `ToolMeaning`, `ToolTheorem`, `ToolRequests`.
- **Recovery log.** `AsciiCodec`, `AsciiDump`, `DumpOrder`, `LoadedValues` (json.dumps and json.loads as the log uses
  them), `RecoveryRecords`, `Recovery`, `RecoveryFacts`, `RecoveryRuns`, `RecoveryLimits`.
- **Observation client.** `Observation`, `ObservationRuns`.
- **Comparison.** `Comparison`, `Strata`.
- **Glob translation.** `Glob`. **Composition validators.** `Composition`. `Basics` is shared by all.

A number is its spelling; which spellings decode, which are safe, and how a language writes a number are parameters
that every theorem holds for.
A Python string is a sequence of code points, a TypeScript string one of UTF-16 code units, and `Utf16` relates them.

## Where the code does less than it promises

The recovery log promises that a written line is readable and that an identical retry returns the original.
json.dumps writes a high surrogate followed by its low one, held as two code points, exactly like the single code
point they stand for, so such strings come back shorter. The code is kept as it is and the exact conditions are proved:

- a record appended to a readable log leaves it readable if and only if no two names of one dictionary read back
  alike and the identifier, as it reads back, is new (`AppendedReads`);
- an identical retry returns the original if and only if the identifier reads back unchanged and joining keeps the
  key order (`RetryExact`);
- `SplitIdentifier`, `SplitIdentifierHappens`, `CollidingNamesHappen` and `ReorderedNamesHappen` exhibit the failures.

Over whole runs, the log stays readable up to an unfinished line if and only if every completed line met the first of
these conditions (`RunsAreSound`); a completed line that does not meet it closes the log for good.

The compiler flattens an object body that it takes for closed, and the tool it emits is meant to reach the operation.
A body with `unevaluatedProperties: false` passes that test even if its `additionalProperties` accepts other members,
because those members then count as evaluated:

- exactly the valid requests whose body holds declared members only can be made through the tool (`RequestsExpressed`);
- with `additionalProperties` absent or false these are all valid requests (`EveryValidRequest`), and in general they
  are all exactly when `additionalProperties` accepts no value (`AllExpressed`);
- `OpenBodyCompiles` and `OpenBodyHappens` exhibit a body that is flattened, and a request that the tool cannot make.

The chain of observed cursors stays a simple path when every poll passes the last recorded cursor (`ChainIsSimple`), and
not in general: `RunDistinct` gives the exact condition for a run, which also admits a cursor not yet recorded, and
`OldCursorRepeats` a run that breaks it.

Both SDKs apply one 4 MiB limit to a value, and they do not measure it alike. Strings, names and punctuation agree;
a number is measured as each language writes it, so 0.00001 counts 5 bytes in Python and 7 in TypeScript:

- the two sizes differ by exactly the sum of these differences, and agree if and only if it is 0 (`SizesDiffer`);
- values whose numbers are integer tokens other than -0 always agree (`IntegersAgree`);
- `OneSideRefuses` is a value that Python accepts and TypeScript refuses.

## Readings that may surprise

A `**` need not be a whole segment: `GlobMeansSpans` gives the meaning of every pattern, in which two stars go beyond
segments wherever they stand (`StrayStarsCross`). A computed comparison can have suppressed strata
(`SuppressedStrataOfAComputedWhole`); the code does not promise otherwise.

## Model

| member | source | states |
|---|---|---|
| `JsonGrammar.DocumentSound` | tools/contracts/templates/strict-json.ts:47-53 | a text the parser accepts is the spelling of the well-formed tree it returns, within the depth and node limits |
| `JsonGrammar.DocumentComplete` | tools/contracts/templates/strict-json.ts:47-53 | the spelling of every well-formed tree within the limits is parsed to that tree, all input consumed, with its exact node count |
| `JsonGrammar.Unambiguous` | tools/contracts/templates/strict-json.ts:47-53 | a text is the spelling of at most one tree |
| `JsonReading.StrictIsFilter` | tools/contracts/templates/strict-json.ts:67-225 | testing surrogates, names and numbers while parsing accepts exactly what testing the finished tree would |
| `JsonReading.DenoteSize` | tools/contracts/templates/strict-json.ts:55-57 | a tree and the value it stands for have the same depth and the same number of nodes |
| `JsonReading.StrictReadExact` | tools/contracts/templates/strict-json.ts:41-226 | the reader returns v if and only if the whole text derives v with distinct names, paired surrogates, admitted numbers, depth at most 64 and at most 100000 nodes; its node counter is the size of v |
| `StrictParser.Parser.Space` | tools/contracts/templates/strict-json.ts:59-65 | skips exactly the leading white space |
| `StrictParser.Parser.Take` | tools/contracts/templates/strict-json.ts:80-84 | consumes a literal exactly when the text starts with it |
| `StrictParser.Parser.Hex4` | tools/contracts/templates/strict-json.ts:86-99 | succeeds exactly on four hexadecimal digits and returns the code they spell |
| `StrictParser.Parser.HexEscape` | tools/contracts/templates/strict-json.ts:125-136 | a hexadecimal escape is read as one element or as one surrogate pair, or the whole string is refused |
| `StrictParser.Parser.LowEscape` | tools/contracts/templates/strict-json.ts:128-131 | succeeds exactly when the next element is a hexadecimal escape of a low surrogate |
| `StrictParser.Parser.Escape` | tools/contracts/templates/strict-json.ts:112-140 | an escape advances the string by the elements it spells, or the whole string is refused |
| `StrictParser.Parser.Literal` | tools/contracts/templates/strict-json.ts:141-150 | a literal code or a literal surrogate pair advances the string, anything else refuses it |
| `StrictParser.Parser.String` | tools/contracts/templates/strict-json.ts:101-153 | returns the codes of the elements up to the closing quote exactly when surrogates are paired |
| `StrictParser.Parser.Number` | tools/contracts/templates/strict-json.ts:155-184 | reads the longest number token of the grammar and refuses it unless it is admitted |
| `StrictParser.Parser.Value` | tools/contracts/templates/strict-json.ts:67-78 | one value: the result, the rest of the text and the node counter are those of the grammar's parser |
| `StrictParser.Parser.ReadArray` | tools/contracts/templates/strict-json.ts:212-225 | an array: items in order, refused exactly when the grammar refuses |
| `StrictParser.Parser.ReadObject` | tools/contracts/templates/strict-json.ts:188-210 | an object: members in order, a repeated name refused |
| `StrictParser.Parser.Parse` | tools/contracts/templates/strict-json.ts:47-53 | the class computes the strict reading of the text, and its node field is the number of nodes of the result |
| `TwoPassDecoder.Scanner.ScanString` | packages/vuoro-contracts/src/vuoro_contracts/validation.py:64-90 | accepts exactly the strings of the grammar and stops after the closing quote |
| `TwoPassDecoder.Scanner.ScanNumber` | packages/vuoro-contracts/src/vuoro_contracts/validation.py:92-121 | accepts exactly the number tokens of the grammar and stops after them |
| `TwoPassDecoder.Scanner.ScanValue` | packages/vuoro-contracts/src/vuoro_contracts/validation.py:123-180 | one value: success, rest of the text and node counter are those of the grammar's parser |
| `TwoPassDecoder.Scanner.Scan` | packages/vuoro-contracts/src/vuoro_contracts/validation.py:53-186 | the scan succeeds exactly on documents within the depth and node limits |
| `TwoPassDecoder.FiniteCheck.Check` | packages/vuoro-contracts/src/vuoro_contracts/validation.py:189-213 | true exactly when strings and names are free of surrogates, numbers are safe and the limits hold; the counter ends at the number of nodes |
| `TwoPassDecoder.ParseText` | packages/vuoro-contracts/src/vuoro_contracts/validation.py:226-251 | scan, then decode, then check computes the decoding of the text |
| `TwoPass.ScannedValue` | packages/vuoro-contracts/src/vuoro_contracts/validation.py:240-246 | after a successful scan and decode the value is within the limits, so the depth and node tests of the final check never refuse |
| `TwoPass.DocumentEncodes` | packages/vuoro-contracts/src/vuoro_contracts/validation.py:53-186 | the scan sees the same structure in a text and in its UTF-16 form |
| `TwoPassAgreement.TreeAgrees` | packages/vuoro-contracts/src/vuoro_contracts/validation.py:189-213 | on every document, refusing repeated names and leftover surrogates afterwards is the same as refusing them while parsing |
| `TwoPassAgreement.ReadersAgree` | packages/vuoro-contracts/src/vuoro_contracts/validation.py:226-251 | the two-pass decoder accepts exactly the texts the one-pass reader accepts in UTF-16 form, and yields the same value |
| `TwoPassAgreement.ByteOrderMarkRefused` | tools/contracts/templates/strict-json.ts:249-250 | a text that starts with a byte order mark is refused by the grammar alone |
| `JsonLexicon.EscapeMeans` | tools/contracts/templates/strict-json.ts:112-124 | for both readers and within any string, backslash and one of the eight marks stand for exactly the character of section 7 of RFC 8259, and any other mark but u is refused |
| `JsonLexicon.HexMeans` | tools/contracts/templates/strict-json.ts:125-137 | within any string, backslash, u and four hexadecimal digits of either case stand for the code that they spell, unless it is a surrogate: then the string is refused |
| `JsonLexicon.HexNeedsDigits` | tools/contracts/templates/strict-json.ts:86-99 | backslash and u before anything but four hexadecimal digits are refused |
| `JsonLexicon.PairMeans` | tools/contracts/templates/strict-json.ts:126-132 | two escapes that spell a surrogate pair stand for two units in TypeScript and for one code point in Python |
| `JsonLexicon.LiteralMeans` | tools/contracts/templates/strict-json.ts:141-150 | within any string a literal code stands for itself; control codes and single surrogates are refused |
| `JsonLexicon.BlankMeans` | tools/contracts/templates/strict-json.ts:59-65 | space, tab, line feed and carriage return before a value change nothing |
| `JsonLexicon.BeginMeans` | tools/contracts/templates/strict-json.ts:67-78 | no other code but the first of a value can begin a text |
| `JsonLexicon.NamesMean` | tools/contracts/templates/strict-json.ts:74-76 | true, false and null, letter by letter |
| `JsonLexicon.NumberMeans` | tools/contracts/templates/strict-json.ts:155-184 | a sign, digits, a fraction and an exponent put together as section 6 of RFC 8259 has them are read as that number, if the reader admits it |
| `JsonNesting.ArrayMeans` | tools/contracts/templates/strict-json.ts:212-225 | for both readers: texts of values between brackets, with commas, are read as the array of those values if and only if it has at most 64 levels and 100000 nodes |
| `JsonNesting.ObjectMeans` | tools/contracts/templates/strict-json.ts:188-210 | names and texts of values between braces, with colons and commas, are read as the object with those members if and only if the names are distinct strings and the limits hold |
| `JsonPrinting.CanonicalExact` | packages/vuoro-contracts/src/vuoro_contracts/validation.py:216-223 | the compact serialisation of a value, its numbers spelled as they stand, is a document that stands for that value, in both views of strings |
| `JsonPrinting.PrintThenRead` | tools/contracts/templates/strict-json.ts:41-226 | print then read is the identity on every value the strict reader may accept, and a refusal on every other |
| `JsonPrinting.PrintThenDecode` | packages/vuoro-contracts/src/vuoro_contracts/validation.py:216-251 | print then decode is the identity on every value within the bounds, and a refusal on every other |
| `JsonPrinting.SerialiseThenRead` | tools/contracts/templates/strict-json.ts:41-226 | for every number writer, reading what a serialiser emits gives back the value with its numbers respelled, on exactly the values that may be accepted |
| `JsonPrinting.SerialiseThenDecode` | packages/vuoro-contracts/src/vuoro_contracts/validation.py:216-251 | the same for the two-pass decoder |
| `JsonWriting.PrintIsWritten` | packages/vuoro-contracts/src/vuoro_contracts/validation.py:216-221 | the trees that are printed spell what two plain recursive writers put down in characters: the compact form, and the ASCII form with spaces and lower-case escapes that the recovery log has |
| `Unicode.Utf8Decodes` | packages/vuoro-contracts/src/vuoro_contracts/validation.py:221-221 | the bytes of a code point are those of section 3 of RFC 3629 |
| `JsonSize.BytesArePrinted` | tools/contracts/templates/strict-json.ts:257-344 | the sum of the counted parts, each number as the language writes it, equals the UTF-8 length of the serialisation |
| `JsonSize.Validator.AddBytes` | tools/contracts/templates/strict-json.ts:261-264 | refuses exactly when the new total would exceed 4 MiB, else adds |
| `JsonSize.Validator.CountString` | tools/contracts/templates/strict-json.ts:265-284 | counts a string's bytes, refusing unpaired surrogates |
| `JsonSize.Validator.Visit` | tools/contracts/templates/strict-json.ts:285-335 | counts one value: fine exactly when sound, within the limits and within the remaining bytes |
| `JsonSize.ValidateJsonValue` | tools/contracts/templates/strict-json.ts:257-344 | accepts exactly the sound values within depth and nodes whose serialisation has at most 4 MiB; an otherwise valid value is refused for size if and only if it is longer |
| `JsonSize.ValidatedIsRead` | tools/contracts/templates/strict-json.ts:285-335 | apart from the size in bytes, a value without repeated names is validated if and only if the reader returns it for the text that it is printed as |
| `SizeAgreement.CanonicalSize` | packages/vuoro-contracts/src/vuoro_contracts/validation.py:216-223 | refuses exactly the values outside the bounds and returns the UTF-8 length of the serialisation of the others, with numbers as Python writes them |
| `SizeAgreement.PrintEncodes` | packages/vuoro-contracts/src/vuoro_contracts/validation.py:220-221 | serialising and then encoding in UTF-16 is encoding and then serialising |
| `SizeAgreement.SizesDiffer` | tools/contracts/templates/strict-json.ts:288-290 | for every clean value of scalar strings the size that Python measures exceeds the total that TypeScript counts by exactly the sum over its numbers of how much longer Python writes them; the two agree if and only if that sum is 0 |
| `SizeAgreement.AcceptanceDiffers` | tools/contracts/templates/strict-json.ts:257-344 | TypeScript accepts a value if and only if it is within the bounds and Python's size less that sum is at most 4 MiB |
| `SizeAgreement.IntegersAgree` | tools/contracts/templates/strict-json.ts:288-290 | both sides measure and accept alike every value whose numbers are integer tokens other than -0 |
| `SizeAgreement.TinySpellings` | packages/vuoro-contracts/src/vuoro_contracts/validation.py:220-221 | 0.00001 takes 7 bytes as TypeScript writes it and 5 as Python does |
| `SizeAgreement.OneSideRefuses` | tools/contracts/templates/strict-json.ts:290-290 | a value within 4 MiB for Python that TypeScript refuses for its length |
| `Schemas.CollectorsAgree` | packages/vuoro-contracts/src/vuoro_contracts/profile.py:85-102 | on a walked schema both reference collectors find the same references, all of them known identifiers |
| `Schemas.RewriteRefs` | scripts/contracts/generate.py:420-447 | the references of a rewritten schema are the old ones, rebased |
| `Schemas.RewriteIsTheCopy` | scripts/contracts/generate.py:420-447 | the rewritten schema is the one schema that carries no identifier at any depth and otherwise says the same: equal types, required names, assertions, annotations, applicators and entry names, with every reference under #/$defs/ |
| `SchemaMeaning.NodeMeans` | packages/vuoro-contracts/src/vuoro_contracts/validation.py:292-297 | the evaluator by which meaning is stated is the keyword-by-keyword reading of JSON Schema 2020-12: a schema accepts a value exactly when its reference, its type, required names and assertions do, the value obeys every applicator, and unevaluatedProperties accepts the members that nothing has evaluated; these are also exactly the members that it reports as evaluated |
| `SchemaEval.RankDoesNotMatter` | packages/vuoro-contracts/src/vuoro_contracts/profile.py:103-118 | the verdict on an instance does not depend on the rank chosen for the resources |
| `SchemaEval.RewritePreserves` | scripts/contracts/generate.py:391-447 | evaluating a schema against the registry equals evaluating its rewritten form against the closure as local definitions, for every instance |
| `ToolTheorem.LocalReferenceResolves` | scripts/contracts/generate.py:431-434 | a rebased reference is a JSON pointer into the tool's own definitions, which hold exactly one entry of that name: the rewritten resource that evaluation follows the reference to |
| `ToolTheorem.ToolHolds` | scripts/contracts/generate.py:480-544 | a compiled tool is the closed object whose properties are one reference for each parameter and a copy of each body property, whose definitions are copies of exactly the resources of the closure, and in which no schema has an identifier |
| `RefGraph.ResourceClosure` | scripts/contracts/generate.py:391-417 | succeeds if and only if every reachable identifier exists and no reachable cycle exists; then the order lists exactly the reachable identifiers, each once, after everything it refers to |
| `RefGraph.SearchFrom` | scripts/contracts/generate.py:395-416 | one root: the stack, the marks and the order keep their invariant through duplicate stack entries, and the search ends |
| `RefGraph.GraphCheck.Visit` | packages/vuoro-contracts/src/vuoro_contracts/profile.py:106-115 | a refusal exhibits a cycle; otherwise the identifier and all it reaches are visited and the marks are restored |
| `RefGraph.CheckGraph` | packages/vuoro-contracts/src/vuoro_contracts/profile.py:103-118 | accepts a closed reference graph if and only if it has a rank function |
| `RefGraph.OrderGivesRank` | scripts/contracts/generate.py:391-417 | an order in which references come first yields a rank function |
| `RefGraph.NoRank` | packages/vuoro-contracts/src/vuoro_contracts/profile.py:106-108 | a graph with a cycle has no rank function |
| `RefGraph.RankedClosureSucceeds` | scripts/contracts/generate.py:391-417 | after the recursive check the stack search never refuses |
| `ToolCompiler.AddParameters` | scripts/contracts/generate.py:457-481 | the loop over parameters accepts exactly the admissible ones and builds their properties, required names, bindings and path names; what these are is said by AdmissionExact, ToolHolds and PlanPlaces |
| `ToolCompiler.AddBody` | scripts/contracts/generate.py:492-523 | refuses exactly the inadmissible requests (unknown resource, body not closed, other keywords, undeclared or repeated required names, name clashes, unsupported properties); otherwise an object body is spread into properties and any other body becomes one argument |
| `ToolCompiler.AddObjectBody` | scripts/contracts/generate.py:498-517 | the tests on an object body accept exactly the bodies that may be flattened and share no name with a parameter |
| `ToolCompiler.AddEntries` | scripts/contracts/generate.py:512-516 | the loop rewrites and binds every property in order, or stops at one outside the vocabulary |
| `ToolCompiler.CompileTool` | scripts/contracts/generate.py:450-589 | succeeds exactly on admissible operations whose references close without a cycle, and then returns the compiled tool and plan |
| `ToolCompiler.Finish` | scripts/contracts/generate.py:525-589 | the closure and the last test: fails exactly on a reachable cycle or missing resource |
| `ToolCompiler.LocalRefsAreClosure` | scripts/contracts/generate.py:550-582 | the local references of the tool are exactly its definitions, so the final test never fires |
| `ToolAdmission.AdmissionExact` | scripts/contracts/generate.py:457-523 | the tests on an operation, one parameter and one property after the other, accept exactly this: distinct non-empty names, path or query with a simple type, path fields that are the path parameters, and a request whose object body is closed, says nothing beyond its properties and shares no name |
| `ToolAdmission.SupportedExact` | scripts/contracts/generate.py:335-369 | the vocabulary check accepts exactly the schemas in which every schema position, at every depth, is in the tool vocabulary with a well-formed reference |
| `ToolAdmission.WalksExact` | packages/vuoro-contracts/src/vuoro_contracts/profile.py:53-84 | the walk of validate_bundle accepts exactly the resources in which every schema is in the profile, refers to known identifiers and, below the root, has no identifier |
| `ToolAdmission.WalkedSupported` | scripts/contracts/generate.py:318-341 | a resource that validate_bundle accepts is refused by the tool compiler exactly when some schema in it has contentEncoding or contentMediaType |
| `ToolAdmission.IdMeans` | scripts/contracts/generate.py:24-24 | an identifier is one or more letters, digits, underscores, dots and hyphens |
| `ToolMeaning.ToolAccepts` | scripts/contracts/generate.py:536-544 | the closed tool schema accepts exactly the objects whose members are named, valid and complete |
| `ToolMeaning.BodyAccepts` | scripts/contracts/generate.py:497-509 | a flattened body accepts exactly the objects with the required names, valid declared members, and other members only where additionalProperties accepts their values; where it is absent they are refused |
| `ToolTheorem.FlatteningPreservesMeaning` | scripts/contracts/generate.py:450-589 | the tool schema accepts an argument if and only if every key is bound, every required one is present, each path and query argument is valid for its own resource and the rebuilt body is valid for the request resource |
| `ToolTheorem.BundleGraphClosed` | packages/vuoro-contracts/src/vuoro_contracts/profile.py:53-102 | the reference graph of a walked bundle mentions only its own resources |
| `ToolTheorem.BundleRanked` | packages/vuoro-contracts/src/vuoro_contracts/profile.py:83-118 | an accepted bundle has ranks under which evaluation is well founded |
| `ToolTheorem.BundleClosure` | scripts/contracts/generate.py:525-535 | after validate_bundle the closure meets no cycle and no unknown identifier; it fails exactly for a reachable resource outside the tool vocabulary |
| `ToolTheorem.BundleToolMeaning` | scripts/contracts/generate.py:591-598 | for every accepted bundle there are ranks to evaluate by, and whatever they are, every tool compiled from it accepts an argument if and only if the operation accepts the rebuilt request |
| `ToolTheorem.PlanPlaces` | scripts/contracts/generate.py:457-523 | the keys bound to the path are exactly the path fields and the path parameters, those bound to the query exactly the query parameters, those bound to the body exactly the body's own names; every binding has its key for a name, the schema of its own parameter or request, and the style of its place |
| `ToolTheorem.MergeThenSplit` | scripts/contracts/generate.py:583-588 | path arguments, query arguments and body fields merged into one argument object are recovered by the plan, each part by itself |
| `ToolTheorem.SplitThenMerge` | scripts/contracts/generate.py:583-588 | the plan loses no argument and uses none twice |
| `ToolRequests.AcceptedRebuilds` | scripts/contracts/generate.py:450-589 | every argument object that the tool accepts is rebuilt into a valid request: each side holds arguments of its own parameters, none twice and all required ones, every path field is filled exactly once, and the body members are declared |
| `ToolRequests.SidesFillPath` | scripts/contracts/generate.py:483-490 | in every valid request the path arguments are the path fields, each exactly once |
| `ToolRequests.RequestsExpressed` | scripts/contracts/generate.py:450-589 | the converse of flattening: a request, with its path, query and body apart, comes from an accepted argument if and only if it is valid by the operation alone and its flattened body holds declared members only |
| `ToolRequests.EveryValidRequest` | scripts/contracts/generate.py:499-502 | with additionalProperties absent or false the requests that the tool can make are exactly the valid ones |
| `ToolRequests.ExtraIsLost` | scripts/contracts/generate.py:499-502 | an undeclared member added to a valid request leaves it valid exactly when additionalProperties accepts the value, and out of reach of the tool always |
| `ToolRequests.AllExpressed` | scripts/contracts/generate.py:499-502 | if an operation has a valid request, the tool can make all of them if and only if its body schema accepts no value under an undeclared name |
| `ToolRequests.OpenBodyCompiles` | scripts/contracts/generate.py:498-502 | a bundle that validate_bundle accepts holds a body that admits any member; the body passes the test for closed bodies and is compiled |
| `ToolRequests.OpenBodyHappens` | scripts/contracts/generate.py:498-502 | a valid request of that operation that the tool cannot make |
| `AsciiCodec.JoinedIsFixed` | packages/vuoro-client/src/vuoro_client/recovery.py:218-218 | a string survives a dump and a load exactly when it holds no split surrogate pair |
| `AsciiCodec.AsciiPoints` | packages/vuoro-client/src/vuoro_client/recovery.py:218-218 | a dumped string reads back with its surrogate pairs joined |
| `AsciiCodec.AsciiJoin` | packages/vuoro-client/src/vuoro_client/recovery.py:228-228 | joining the pairs of a string does not change its dump |
| `AsciiDump.LoadExact` | packages/vuoro-client/src/vuoro_client/recovery.py:255-256 | the loader returns v exactly when the line is a JSON text without repeated names that stands for v |
| `AsciiDump.DumpsAlike` | packages/vuoro-client/src/vuoro_client/recovery.py:228-229 | two payloads are written alike if and only if they are equal up to joined surrogate pairs |
| `AsciiDump.DumpThenLoad` | packages/vuoro-client/src/vuoro_client/recovery.py:218-256 | a written value reads back joined and sorted, unless two names of a dictionary collide, and then it is refused |
| `DumpOrder.RoundTripIdentity` | packages/vuoro-client/src/vuoro_client/recovery.py:218-256 | a value reads back unchanged if and only if none of its strings and names holds a split surrogate pair |
| `DumpOrder.RedumpIsStable` | packages/vuoro-client/src/vuoro_client/recovery.py:228-229 | what was read is written again to the same text if and only if joining kept the key order |
| `DumpOrder.LessExact` | packages/vuoro-client/src/vuoro_client/recovery.py:218-218 | keys are sorted by code point: a proper prefix comes first, else the first difference decides |
| `DumpOrder.DumpPlain` | packages/vuoro-client/src/vuoro_client/recovery.py:218-218 | a dump is printable ASCII, so a line holds no line feed before its end |
| `LoadedValues.LoadIsPy` | packages/vuoro-client/src/vuoro_client/recovery.py:255-259 | whatever a line decodes to can be written again |
| `Recovery.Open` | packages/vuoro-client/src/vuoro_client/recovery.py:107-113 | an incident is opened exactly when its name is one bounded namespace name |
| `Recovery.NamespaceMeans` | packages/vuoro-client/src/vuoro_client/recovery.py:108-108 | the name is a letter or digit and at most 127 letters, digits, dots, underscores and hyphens |
| `Recovery.ArgumentsOfValid` | packages/vuoro-client/src/vuoro_client/recovery.py:193-215 | the tests on the arguments refuse nothing that the entry validation would let through |
| `Recovery.ReadLine` | packages/vuoro-client/src/vuoro_client/recovery.py:254-262 | every record that is read passes the entry validation |
| `Recovery.RecoveryLog.ReadRecords` | packages/vuoro-client/src/vuoro_client/recovery.py:248-267 | the loop over lines computes the records of the file, refused for a torn line, an invalid one or a repeated identifier |
| `Recovery.Search` | packages/vuoro-client/src/vuoro_client/recovery.py:226-230 | the loop over existing records decides between the original, a refusal and a write |
| `Recovery.RecoveryLog.Append` | packages/vuoro-client/src/vuoro_client/recovery.py:181-234 | a refusal and the retry of a record that is there leave the file alone; otherwise exactly one line is added, and it loads as an object in which each argument, as it reads back, stands under its own literal name (an absent detail as {}, an absent identifier as the new one), with a kind that fits the command; the entry that is returned holds the arguments too |
| `RecoveryRecords.LineHolds` | packages/vuoro-client/src/vuoro_client/recovery.py:205-218 | the line of a record whose fields survive loads as the record with each field as it reads back |
| `RecoveryFacts.LineIsRecord` | packages/vuoro-client/src/vuoro_client/recovery.py:236-262 | a line is read as a record if and only if it loads as an object with exactly the eight named fields and each fits: the incident, a kind and its command, an identifier of 1 to 128 characters, a creation time, a summary, a revision or null, and a detail |
| `RecoveryFacts.LineReads` | packages/vuoro-client/src/vuoro_client/recovery.py:218-262 | the line of an admitted entry reads back as that entry joined and sorted, unless names collide |
| `RecoveryFacts.ReadConcat` | packages/vuoro-client/src/vuoro_client/recovery.py:248-267 | reading goes on where a readable file ends, with its identifiers remembered |
| `RecoveryFacts.RecordsDistinct` | packages/vuoro-client/src/vuoro_client/recovery.py:263-265 | the records of a readable file have pairwise distinct identifiers |
| `RecoveryFacts.TornIsUnreadable` | packages/vuoro-client/src/vuoro_client/recovery.py:252-253 | a file that does not end in a line feed is refused |
| `RecoveryFacts.AppendedReads` | packages/vuoro-client/src/vuoro_client/recovery.py:215-267 | an append leaves a readable log readable if and only if its names survive and its identifier, as read back, is new; the records are then the old ones and the new one |
| `RecoveryFacts.RetryDecided` | packages/vuoro-client/src/vuoro_client/recovery.py:226-230 | under a known identifier the original is returned if and only if the payloads are equal up to joined surrogate pairs, else the append is refused; nothing is written |
| `RecoveryFacts.RetryExact` | packages/vuoro-client/src/vuoro_client/recovery.py:205-234 | an identical retry returns the original if and only if the identifier reads back unchanged and joining keeps the key order |
| `RecoveryRuns.UninterruptedAppend` | packages/vuoro-client/src/vuoro_client/recovery.py:219-234 | begin and flush together do what an append does |
| `RecoveryRuns.OldContentsStay` | packages/vuoro-client/src/vuoro_client/recovery.py:219-234 | over every run, with any crashes, old contents stay a prefix of new contents |
| `RecoveryRuns.UnreadableForever` | packages/vuoro-client/src/vuoro_client/recovery.py:224-229 | once the file is unreadable every append is refused and the file never changes |
| `RecoveryRuns.TornForever` | packages/vuoro-client/src/vuoro_client/recovery.py:252-253 | once a tail is torn every append and read is refused and the file never changes |
| `RecoveryRuns.StepOutcome` | packages/vuoro-client/src/vuoro_client/recovery.py:219-234 | one step of any process keeps the log sound and every record in it, unless it completes a line that cannot be read back, which makes the log unreadable |
| `RecoveryRuns.RunsAreSound` | packages/vuoro-client/src/vuoro_client/recovery.py:181-276 | over every interleaving of appenders, readers and crashes the log is readable lines and at most one unfinished one if and only if every completed line could be read back; then no committed record is lost or altered, else the log is closed |
| `RecoveryRuns.RunsFromEmpty` | packages/vuoro-client/src/vuoro_client/recovery.py:181-276 | from the empty file: complete lines and a tail without a line feed; the lines read, with pairwise distinct identifiers, if and only if every completed line could be read back; an unreadable file at rest never changes again |
| `RecoveryRuns.AcknowledgedForever` | packages/vuoro-client/src/vuoro_client/recovery.py:205-267 | whatever is appended later, an appended line stays; the same append again returns the original if and only if the log is still readable, the identifier reads back unchanged and joining keeps the key order |
| `RecoveryLimits.SplitIdentifier` | packages/vuoro-client/src/vuoro_client/recovery.py:226-231 | an identical retry of a record with a split identifier writes a second line and makes the log unreadable for good |
| `RecoveryLimits.SplitIdentifierHappens` | packages/vuoro-client/src/vuoro_client/recovery.py:236-246 | such a record is admitted, and its first line leaves the log readable |
| `RecoveryLimits.CollidingNamesHappen` | packages/vuoro-client/src/vuoro_client/recovery.py:39-45 | an admitted record whose line is refused by the next reader |
| `RecoveryLimits.ReorderedNamesHappen` | packages/vuoro-client/src/vuoro_client/recovery.py:228-229 | an admitted record whose identical retry does not return the original |
| `Observation.Client.constructor` | packages/vuoro-client/src/vuoro_client/client.py:75-78 | a new client takes over an exported state |
| `Observation.Client.Changes` | packages/vuoro-client/src/vuoro_client/client.py:573-604 | a reply is accepted exactly when it is an answer for the resource with a next cursor that is new or the last one recorded and with no empty event identifier; then its unseen events are delivered once, its identifiers are added and its cursors recorded; any other reply leaves the state alone |
| `Observation.Deduplicate` | packages/vuoro-client/src/vuoro_client/client.py:593-601 | the loop keeps the first occurrence of every unseen event |
| `Observation.Client.Wait` | packages/vuoro-client/src/vuoro_client/client.py:606-661 | from the last recorded cursor or a snapshot's, each further poll asks for the snapshot's cursor after an expired turn, the answer's next one after an accepted turn and the same one after a lost turn; it ends as terminal exactly when the last turn delivered a terminal event and the closing snapshot is the resource's or was an expiry with a terminal snapshot, and times out exactly when every turn was polled and left it open |
| `Observation.Client.Export` | packages/vuoro-client/src/vuoro_client/client.py:89-92 | importing what was exported gives back the state; identifiers are exported in ascending order |
| `Observation.BeforeExact` | packages/vuoro-client/src/vuoro_client/client.py:89-92 | exported identifiers are sorted in the same order of strings |
| `Observation.FreshOnce` | packages/vuoro-client/src/vuoro_client/client.py:593-601 | delivered events are new and pairwise distinct, and none is missing |
| `Observation.WaitFollowsTheChain` | packages/vuoro-client/src/vuoro_client/client.py:634-661 | whatever the network does, the polls of a wait follow the chain of recorded cursors if and only if the snapshots after an expiry, but for one that ends the wait, give the last recorded cursor |
| `Observation.WaitIsTraced` | packages/vuoro-client/src/vuoro_client/client.py:634-661 | over all turns, lost, answered or rejected: each next cursor is the one that the turn before it calls for, and the wait is terminal or timed out exactly when its turns are |
| `Observation.WaitDelivers` | packages/vuoro-client/src/vuoro_client/client.py:634-661 | a wait ends as terminal exactly when all its polls together delivered a terminal event and the closing snapshot is the resource's, or its last snapshot after an expiry was terminal; when it times out no terminal event was delivered |
| `ObservationRuns.AtMostOnce` | packages/vuoro-client/src/vuoro_client/client.py:593-604 | whatever cursors are passed and whatever is answered, over every run no event is delivered twice |
| `ObservationRuns.Transfer` | packages/vuoro-client/src/vuoro_client/client.py:75-92 | a client made from what another exports has exactly its state |
| `ObservationRuns.Restart` | packages/vuoro-client/src/vuoro_client/client.py:89-92 | a client that imports what was exported after some polls goes on as the old one would have: together they deliver what one client would, and no event twice |
| `ObservationRuns.DeliversExactly` | packages/vuoro-client/src/vuoro_client/client.py:573-604 | against an append-only owner, with lost and repeated replies, a run delivers exactly the events up to where its accepted replies reach |
| `ObservationRuns.ChainReaches` | packages/vuoro-client/src/vuoro_client/client.py:634-661 | when every poll passes the last recorded cursor, that cursor marks how far the run has come |
| `ObservationRuns.FollowingDeliversTheLog` | packages/vuoro-client/src/vuoro_client/client.py:573-661 | from fresh state, following the chain delivers exactly the owner's events between the first and the last cursor, in order |
| `ObservationRuns.CursorsStep` | packages/vuoro-client/src/vuoro_client/client.py:585-592 | recorded cursors stay, no neighbours are equal, and an accepted poll leaves its next cursor at the end |
| `ObservationRuns.DistinctStep` | packages/vuoro-client/src/vuoro_client/client.py:587-592 | the exact condition under which one accepted poll keeps the cursors pairwise distinct |
| `ObservationRuns.RunDistinct` | packages/vuoro-client/src/vuoro_client/client.py:585-592 | over every run the cursors stay pairwise distinct if and only if every accepted poll met that condition |
| `ObservationRuns.ChainIsSimple` | packages/vuoro-client/src/vuoro_client/client.py:585-592 | a run that always passes the last recorded cursor records a simple path |
| `ObservationRuns.OldCursorRepeats` | packages/vuoro-client/src/vuoro_client/client.py:589-592 | polling an older cursor records it twice |
| `Comparison.BoundsAreTight` | packages/vuoro-evidence/src/vuoro_evidence/comparison.py:264-285 | however the unresolved cases of both arms are settled the rate difference lies within the bounds; both ends and the delta are attained |
| `Comparison.SwapNegates` | packages/vuoro-evidence/src/vuoro_evidence/comparison.py:264-285 | exchanging the arms negates the delta, exchanges the negated bounds and suppresses the same metrics |
| `Comparison.SettledCount` | packages/vuoro-evidence/src/vuoro_evidence/comparison.py:269-272 | settled hits lie between the count and the count plus the unresolved cases, and reach both |
| `Comparison.RateMeans` | packages/vuoro-evidence/src/vuoro_evidence/comparison.py:264-285 | every case is in the denominator; counts and unresolved cases are those of their own arm; each rate times the denominator is the count of its own arm, and the delta is the candidate's rate less the baseline's |
| `Comparison.ReasonsMean` | packages/vuoro-evidence/src/vuoro_evidence/comparison.py:236-252 | each reason for suppression is given exactly when its own minimum is missed, and qualification does not suppress the capture rate |
| `Comparison.GateNeedsCases` | packages/vuoro-evidence/src/vuoro_evidence/comparison.py:236-252 | a metric that is not suppressed has cases to divide by |
| `Strata.GroupBy` | packages/vuoro-evidence/src/vuoro_evidence/comparison.py:466-468 | the grouping loop puts each case under its label, in order, and makes no empty group |
| `Strata.Stratify` | packages/vuoro-evidence/src/vuoro_evidence/comparison.py:465-470 | the strata of an axis cover the cohort and each carries the figures of its own cases |
| `Strata.Conserved` | packages/vuoro-evidence/src/vuoro_evidence/comparison.py:465-470 | any count over a cohort is the sum of the counts over its strata |
| `Strata.StrataConserve` | packages/vuoro-evidence/src/vuoro_evidence/comparison.py:269-275 | denominators, hits and unresolved cases of the strata add up to the overall figures |
| `Strata.PairsAndTransitionsConserve` | packages/vuoro-evidence/src/vuoro_evidence/comparison.py:231-234 | so do the pairs and every transition count |
| `Strata.GateExact` | packages/vuoro-evidence/src/vuoro_evidence/comparison.py:236-252 | the gate passes exactly when cases, observed pairs and qualified pairs reach both minima |
| `Strata.StrataCannotHideSuppression` | packages/vuoro-evidence/src/vuoro_evidence/comparison.py:236-252 | if every stratum passes the gate, the overall cohort passes it |
| `Strata.SuppressedStrataOfAComputedWhole` | packages/vuoro-evidence/src/vuoro_evidence/comparison.py:469-472 | the converse fails |
| `Strata.Transitions` | packages/vuoro-evidence/src/vuoro_evidence/comparison.py:325-330 | the loop counts each pair of states and lists exactly the pairs that occur |
| `Strata.TransitionMarginals` | packages/vuoro-evidence/src/vuoro_evidence/comparison.py:255-261 | the marginals of the transitions are the state counts of the arms |
| `Strata.StateMeans` | packages/vuoro-evidence/src/vuoro_evidence/comparison.py:197-200 | the state of a case in an arm: missing, unqualified, or its disposition |
| `Strata.RatesAreTransitions` | packages/vuoro-evidence/src/vuoro_evidence/comparison.py:264-330 | what the acceptance and rejection rates count in an arm is the sum of the transitions between that state and the qualified states of the other arm |
| `Strata.MetricsMean` | packages/vuoro-evidence/src/vuoro_evidence/comparison.py:333-360 | each figure of a report stands under its own heading |
| `Glob.Translate` | packages/vuoro-knowledge/src/vuoro_knowledge/catalog.py:318-338 | the loop emits the pieces of the pattern in order |
| `Glob.GlobMeansSpans` | packages/vuoro-knowledge/src/vuoro_knowledge/catalog.py:318-338 | for every pattern and every path, the regular expression matches if and only if the pattern's segments span the path: two stars that end an inner segment span any number of segment ends, other pairs of stars any stretch of one line, and all else stays in one segment |
| `Glob.GlobMeansSegments` | packages/vuoro-knowledge/src/vuoro_knowledge/catalog.py:318-342 | for every pattern whose ** are whole segments and every path, the regular expression matches if and only if the segments do: an inner ** spans zero or more, a final one spans one or more, and * and ? stay in one |
| `Glob.AnySpans` | packages/vuoro-knowledge/src/vuoro_knowledge/catalog.py:341-342 | a path is selected by a list of patterns if and only if one of them spans it |
| `Glob.WholeStarsSpan` | packages/vuoro-knowledge/src/vuoro_knowledge/catalog.py:318-338 | where every ** is a whole segment, spanning is what the documented reading selects |
| `Glob.PiecesFollowSegments` | packages/vuoro-knowledge/src/vuoro_knowledge/catalog.py:322-337 | translating a pattern is translating its segments |
| `Glob.CompiledMatches` | packages/vuoro-knowledge/src/vuoro_knowledge/catalog.py:338-342 | the translated segments match a path exactly when the segments select it |
| `Glob.PlainMatches` | packages/vuoro-knowledge/src/vuoro_knowledge/catalog.py:329-337 | a plain segment's pieces match what its wildcards stand for, and nothing with a slash |
| `Glob.StrayStarsCross` | packages/vuoro-knowledge/src/vuoro_knowledge/catalog.py:323-328 | a pattern and a path where stars that share a segment with other characters reach beyond it |
| `Composition.FetchLocks` | scripts/fetch_pinned_adapters.py:65-93 | the pass accepts exactly well-formed locks with distinct identifiers and distributions and one digest per file name |
| `Composition.AttestLocks` | scripts/attest_installed_composition.py:75-112 | the second pass accepts exactly the same locks |
| `Composition.Depend` | scripts/fetch_pinned_adapters.py:140-158 | the loop over dependencies accepts exactly the admissible ones and counts each once |
| `Composition.Refer` | scripts/fetch_pinned_adapters.py:118-158 | one descriptor is accepted exactly when its references are admissible, and the tables then count them |
| `Composition.Close` | scripts/fetch_pinned_adapters.py:159-171 | the closing tests on counts and orphans |
| `Composition.NoOrphans` | scripts/fetch_pinned_adapters.py:170-171 | the counts alone rule out orphans, so the last test of both validators never fires |
| `Composition.ArtifactPins` | scripts/fetch_pinned_adapters.py:55-172 | accepts exactly the manifests its rules describe and returns all locks in order |
| `Composition.Pinned` | scripts/attest_installed_composition.py:68-162 | accepts exactly the manifests its rules describe and returns all locks in order |
| `Composition.FetchIsStricter` | scripts/attest_installed_composition.py:113-123 | the fetcher accepts exactly those manifests the attester accepts that have no other keys and no empty descriptor value |
| `Composition.LinkedExact` | scripts/fetch_pinned_adapters.py:65-171 | the loops and counters accept exactly this: well-formed locks without a repeated identifier or distribution and one digest per file name; descriptors with an adapter and distinct dependencies that are owner dependencies of the adapter's repository or one of the two shared distributions from the canonical one; each adapter named by one descriptor, each owner dependency used by one, each shared one by at least one |
| `Composition.FetchExact` | scripts/fetch_pinned_adapters.py:55-172 | the fetcher accepts exactly such manifests of version v3 with the domains work, audit and knowledge, each once, no other keys and no empty descriptor value |
| `Composition.AdaptersMatchDescriptors` | scripts/fetch_pinned_adapters.py:162-163 | acceptance makes adapter locks and descriptors correspond one to one |
| `Composition.OneOwner` | scripts/fetch_pinned_adapters.py:148-167 | acceptance gives every owner dependency exactly one owner, from whose repository it comes |
| `Composition.SharedAreCanonical` | scripts/fetch_pinned_adapters.py:153-158 | acceptance makes every shared dependency one of the two distributions, from the canonical repository, and used |
| `Composition.SharedHappens` | scripts/fetch_pinned_adapters.py:153-158 | an accepted manifest with a shared dependency |

## Left out

- Floating point: a number is its spelling; "decodes to a finite value" and "safe integer" are predicates, and how json.dumps and String spell a number are functions on spellings.
- UTF-8 decoding of raw bytes, the byte cap on raw input and the host-object defences of the TypeScript boundary (proxies, getters, shared buffers, cyclic objects).
- The reordering of integer-like member names by JavaScript objects: an object is its members in textual order.
- ParseText: takes what json.loads returns as a parameter and relies on its specification, the value of the document the text spells.
- The JSON shape errors of a bundle, an operation and a manifest (a list where an object is expected): schemas, operations and manifests are typed once their shape is right.
- The metaschema check by Draft202012Validator, `$anchor` resolution, formats and path-template parsing; a path is the list of its fields.
- ResourceClosure: takes roots and references in any order, so the sorted order of the output dictionary is not modelled.
- Operation manifests, tool hashing, SDK generation and directory replacement in the contract generator.
- File permissions, symbolic links, ownership and directory creation in the recovery log; the namespace is one file.
- Power loss: characters that reached the file survive, and the return of an existing record does no fsync.
- Read: works on decoded text, so invalid UTF-8 and carriage returns in a file written by hand are not modelled; nothing the log writes holds them.
- Load: keeps the spelling of a number, so the respelling of a number written by hand (1.00 as 1.0) is not modelled, nor is the interpreter's recursion limit.
- Entries that json.dumps refuses: a run's appends carry values that it accepts, each dictionary listed in key order.
- Catalog lookup, transport selection, deadlines and snapshots beyond their cursor and terminal flag in the observation client; what the network does is a list of turns.
- Distinctness of cursors after a cursor_expired reset, which the code does not provide.
- The paired measures and costs, source-qualification report, digests and the experiment record checks of the comparison module.
- Regular-expression engine, case folding and directory walking of the catalog; a match is a split of the path into the parts the pieces match.
- Parsing of release URLs in the composition validators: the file name of a wheel is a parameter shared by both.
- Refer: is one method for both validators, whose tests on references are the same; their passes over the locks and their tests on descriptors are modelled separately.
- The lease, takeover and settlement protocol, whose owning state machine is not part of this repository.
