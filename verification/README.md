# Verified model of the release and quality tools

This project models the small algorithms at the core of the tools in `tools/` and proves what
they are relied on for. `dafny verify dfyconfig.toml` checks all of it. Code that changes
variables or fields step by step is a method or a class, proved equal to a specification
function; the laws are lemmas about those functions. Paths in this file are relative to the
repository.

| modules | what they model |
|---|---|
| `Json`, `JsonText`, `JsonRoundTrip` | JSON values, `canonicalize`, `JSON.stringify`, the comparison through text, and what a compact text denotes |
| `ContractImpact`, `ContractSnapshots` | the contract compatibility checker, method by method |
| `SchemaMeaning`, `SchemaVerdicts`, `ContractVerdicts` | which documents a schema accepts (JSON Schema 2020-12), and what each verdict promises about them |
| `RecordedChanges`, `RecordedSnapshots` | exactly which changes are recorded and when they break consumers, stated on the schemas and snapshots |
| `ReorderedContracts`, `ReorderedSnapshots` | when key order is invisible to the checker, exactly |
| `JsonScanner`, `JsonGrammar`, `JsonShape` | the duplicate-key scanner, that it decides every text of the RFC 8259 grammar, and exactly which texts it passes |
| `ArchitectureSplice`, `SpliceShape` | the marked section of a pull-request description, the lens laws of replacing it, and where it ends up |
| `Separators`, `Paths`, `ArchitectureRoots` | the longest-prefix index from files to nodes, its pruning, and the directory walk it has to agree with |
| `ModuleCollapse`, `ModuleNodes` | collapsing a module graph, as a quotient of graphs, the sorted normal form, and the nodes written out |
| `Decimals`, `MermaidIds` | unique diagram ids |
| `ReleaseTags`, `ReleaseIndex`, `CaptureResolver`, `ReleaseSteps` | the protected release index over all runs of promotions and supersessions, and the resolver that reads it |
| `CheckpointJournal`, `TerminalRecords` | the journal's guards, its independent check, and the terminal record with the condition of each of its fields |
| `WorkerStages`, `StageNames`, `WorkerStageTable` | the bounded diagnostic sequence, for any table of names, and this release's table |
| `VersionPlan`, `PlannedChanges`, `VersionOwners`, `OwnerTexts` | planning, applying and undoing a version change, finding the version in an owner file, and the texts its patterns match |
| `JsonHoles`, `JsonOwners`, `NestedVersion` | what stamping a version into a JSON text makes of its syntax tree, when such a file settles, and one that does not |
| `Ratchet` | the dead-code ratchet |
| `ConsumerLedger`, `LedgerShape` | the consumer gate ledger: its producer, its verifier, and exactly what they accept |
| `AcceptanceScope`, `ScopeShape`, `AcceptanceSequence` | the recorded scope of an acceptance child, its cleanup proof, and the fail-closed run of the projects |
| `Wrappers`, `Ordering`, `Occurrences` | shared: results, sorting and de-duplication, occurrences of one text in another |

## Where the code does less than its documentation says

For each of these the exact condition is proved under which the code keeps the promise.

- A second splice of the same section is not always a no-op (tools/architecture-diff.ts:357-362).
  A section whose markers do not stand on their own lines, or that holds `\r\r\n`, is not read
  back (`SettledExactly`); for any other section the promise fails exactly for a description
  without a section and without CRLF that ends in a carriage return (`SecondSpliceExactly`).
- Pruning changes lookups exactly when the map has a `.` root, which is dropped as its own
  ancestor (tools/architecture-graph.ts:584-598; `DotRootIsLost`, `PruningHarmlessExactly`).
- `normalizeLevel` loses an edge when two edges share a key, a text with a NUL between the names;
  names that hold a NUL can (`NulJoinsEdges`, `AllEdgesExactly`, `LevelIsQuotientExactly`).
- The index of `uiModulesLevel` and its own directory walk disagree for a scanned file exactly
  when a source root lies strictly below the file's module directory and some file belongs to
  `root` (`IndexAgreesExactly`).
- A repeated finding is hidden exactly when some key reads like another key with an ordinal
  (tools/dead-code-gate.ts:172-180; `RepeatIsHidden`, `CountsRepeatsExactly`).
- The contract checker sees key order inside `enum` members and reports composite `required`
  entries against themselves (tools/contract-impact.ts:90-93 and 147-169; `UnstableReported`,
  `ReorderingHiddenExactly`).
- `additive` is compatible in one direction at a time at most: a new optional property makes the
  candidate reject documents the baseline accepts (`NewPropertyRejects`), a loosened object makes
  it accept documents the baseline rejects (`LoosenedAccepts`), and so does a new property that
  accepts more than the schema for unnamed members it used to fall under (`NewPropertyEscapes`,
  `NamedNarrowsExactly`).
- After a version is applied, planning the same version again finds nothing to do exactly when in
  every JSON owner the text pattern had found the top level's own field, or the value already was
  the version (`AppliedVersionSettlesExactly`). A file that nests the field and spells it with an
  escape at the top level is accepted and does not settle (`NestedOwnerStaysUnsettled`).

## Model

| member | source | states |
|---|---|---|
| `Json.CanonicalizeIdempotent` | tools/contract-impact.ts:41-49 | canonicalizing a canonical value changes nothing |
| `Json.CanonicalExactlySame` | tools/contract-impact.ts:41-49 | two values have one canonical form exactly when they differ at most in the order of object keys, at any depth |
| `Json.CanonicalIsSame` | tools/contract-impact.ts:41-49 | a parsed value and its canonical form are the same value but for key order |
| `Json.CanonicalIsSorted` | tools/contract-impact.ts:41-49 | in the canonical form the members of every object, at any depth, stand in the order of their keys |
| `Ordering.StrLeqExactly` | tools/contract-impact.ts:44-46 | one key is at most another exactly when they agree up to a place where the first ends or has the smaller character |
| `JsonText.StringifyInjective` | tools/contract-impact.ts:51-55 | different values have different compact texts, so comparing texts compares values |
| `JsonText.EqualExactlySame` | tools/contract-impact.ts:51-55 | `equal` holds exactly for values that differ at most in object key order |
| `JsonRoundTrip.StringifyDenotes` | tools/contract-impact.ts:51-55 | the compact text of any parsed value is a text of the JSON grammar, without repeated names, that denotes this value and no other: names, strings with all their escapes, numbers, order |
| `ContractImpact.ChangeLog.Add` | tools/contract-impact.ts:65-82 | a change that is already there is dropped, any other is put at the end |
| `ContractImpact.AddAllElements` | tools/contract-impact.ts:65-82 | a log gains exactly the new changes and never holds one twice |
| `ContractImpact.CompareEnum` | tools/contract-impact.ts:84-109 | records the values that only one side has, by raw text: removed ones as breaking, added ones for review (`RecordedExactly` says so without the diff) |
| `ContractImpact.CompareKeys` | tools/contract-impact.ts:255-292 | records each listed keyword that differs up to key order, with the verdict of its group; the group of `$id` and `$schema` (128-132) is the same loop |
| `ContractImpact.CompareRequired` | tools/contract-impact.ts:147-177 | records added names as breaking and removed ones for review, by `Set` membership; non-arrays by comparison |
| `ContractImpact.CompareAdditional` | tools/contract-impact.ts:178-207 | loosening is additive, restricting is breaking, any other difference needs review |
| `ContractImpact.CompareRemoved` | tools/contract-impact.ts:217-226 | every property that the candidate lacks is breaking |
| `ContractImpact.CompareFlat` | tools/contract-impact.ts:137-226 | the four comparisons before any subschema, in order |
| `ContractImpact.CompareProperties` | tools/contract-impact.ts:214-251 | new properties by the three-way rule, shared ones by the recursive comparison, in candidate order |
| `ContractImpact.CompareSchema` | tools/contract-impact.ts:111-293 | the recursive comparison pushes exactly the changes of `SchemaDiff`, in order and without repeats; which these are and when they break is `RecordedExactly` and `BreaksExactly` |
| `ContractImpact.CompareCollections` | tools/contract-impact.ts:314-336 | entries compared by canonical text in collation order: removed ones breaking, added ones for review |
| `RecordedChanges.RecordedExactly` | tools/contract-impact.ts:84-293 | a change is recorded exactly when the two schemas give that reason at that path with that verdict, stated on their keywords, texts and properties without the comparison functions |
| `RecordedChanges.BreaksExactly` | tools/contract-impact.ts:84-293 | a breaking change is recorded exactly when, at the root or in a compared subschema, an enum text, a property or a keyword of the breaking groups is lost or changed, a name becomes required, or an object closes |
| `RecordedChanges.NeedsReviewExactly` | tools/contract-impact.ts:84-293 | a change for review is recorded exactly when an enum text is added, a required name dropped, or another change of the review groups is made there |
| `ContractSnapshots.CompareHeader` | tools/contract-impact.ts:372-413 | a changed bundle hash, API version, schema version or schema id is breaking |
| `ContractSnapshots.CompareSchemas` | tools/contract-impact.ts:414-441 | over the sorted union of schema names: new is additive, removed is breaking, shared ones are compared |
| `ContractSnapshots.CompareManifest` | tools/contract-impact.ts:442-481 | `enums` are compared as a collection, the rest of the semantic manifest as a whole |
| `ContractSnapshots.ClassifyContractImpact` | tools/contract-impact.ts:361-520 | refuses a bad id or snapshot with that error, and otherwise returns all changes, without repeats, under the worst verdict among them; on the snapshots themselves `SnapshotRecordedExactly`, `BreakingExactly` and `ManualReviewExactly` say which |
| `RecordedSnapshots.SnapshotReadExactly` | tools/contract-impact.ts:338-359 | a value is read as a snapshot exactly when it has the ten members, each of its kind, version `1` and a lower-case digest |
| `RecordedSnapshots.SemanticExactly` | tools/contract-impact.ts:295-312 | two semantic manifests are equal exactly when the manifests differ at most in the five generated fields, at any depth, and in key order |
| `RecordedSnapshots.SnapshotRecordedExactly` | tools/contract-impact.ts:372-504 | which changes are recorded for two snapshots, stated on the snapshots themselves |
| `RecordedSnapshots.ClassifiedExactly` | tools/contract-impact.ts:505-513 | the verdict is the worst one for which the snapshots give a reason |
| `RecordedSnapshots.BreakingExactly` | tools/contract-impact.ts:372-513 | `breaking` means exactly that a header field differs, a schema is gone or breaks, or an event, error code or manifest enum is gone |
| `RecordedSnapshots.ManualReviewExactly` | tools/contract-impact.ts:414-513 | `manual-review` means exactly that none of that holds, and a schema needs review, an entry is new, or the manifest or generated code differs |
| `ContractVerdicts.NoImpactExactlyEmpty` | tools/contract-impact.ts:505-513 | `no-impact` means exactly that nothing was recorded |
| `ContractVerdicts.AdditiveExactlyQuiet` | tools/contract-impact.ts:505-513 | `additive` means exactly that something was recorded and all of it is additive |
| `SchemaMeaning.ReorderedSchemaAccepts` | tools/contract-impact.ts:41-55 | reordering keys anywhere in a schema does not change which documents it accepts, so comparing up to key order is sound |
| `SchemaVerdicts.NothingRecorded` | tools/contract-impact.ts:111-293 | if nothing is recorded, both schemas accept exactly the same documents |
| `SchemaVerdicts.CandidateNarrows` | tools/contract-impact.ts:111-293 | if only additive changes and no loosening are recorded, and every new property fits under the baseline's `additionalProperties` (that is absent, or accepts whatever the property accepts; also in shared properties and `items`), every document the candidate accepts the baseline accepts |
| `SchemaVerdicts.OpenFits` | tools/contract-impact.ts:227-242 | new properties fit wherever the candidate names them only under an `additionalProperties` that is absent or true, which can be read off the two schemas |
| `SchemaVerdicts.SimpleIsOpen` | tools/contract-impact.ts:227-242 | they do for every additive diff of a baseline whose `additionalProperties` is absent, true or false throughout |
| `SchemaVerdicts.SilentIsOpen` | tools/contract-impact.ts:227-242 | and for any two schemas between which nothing is recorded |
| `SchemaVerdicts.CandidateWidens` | tools/contract-impact.ts:111-293 | if only loosenings are recorded, from false to anything else, every document the baseline accepts the candidate accepts |
| `ContractVerdicts.NoImpactKeepsDocuments` | tools/contract-impact.ts:414-513 | under `no-impact` both snapshots have the same schema names and each schema keeps exactly its documents |
| `ContractVerdicts.AdditiveNarrows` | tools/contract-impact.ts:414-513 | under `additive` without a loosening no schema disappears, and each candidate schema whose new properties fit under `additionalProperties` accepts at most its baseline's documents |
| `ContractVerdicts.AdditiveWidens` | tools/contract-impact.ts:414-513 | under `additive` with loosenings only no schema disappears and each candidate schema accepts at least its baseline's documents |
| `ContractVerdicts.NewPropertyRejects` | tools/contract-impact.ts:227-242 | for any property schema that rejects some value, adding the property to an open object is `additive` and rejects a document the baseline accepts |
| `ContractVerdicts.LoosenedAccepts` | tools/contract-impact.ts:178-187 | loosening a closed object is `additive` and accepts a document the baseline rejects |
| `ContractVerdicts.NewPropertyEscapes` | tools/contract-impact.ts:227-242 | a new property that accepts what the baseline's `additionalProperties` rejects is recorded `additive` without a loosening, and the candidate accepts a document the baseline rejects |
| `ContractVerdicts.NamedNarrowsExactly` | tools/contract-impact.ts:227-242 | naming one property of an object with any other `additionalProperties` than false accepts no new documents exactly when the property fits |
| `ContractVerdicts.HeaderChangeIsBreaking` | tools/contract-impact.ts:372-413 | the header is silent exactly when all four fields agree, and any difference makes the classification `breaking`, whatever else changed |
| `ReorderedContracts.ReorderingHidden` | tools/contract-impact.ts:111-293 | a schema with order-free `enum` members and scalar `required` entries differs in nothing from any reordered copy |
| `ReorderedContracts.UnstableReported` | tools/contract-impact.ts:90-93 | every other schema differs, for the checker, from one of three copies of itself: as it is, sorted upwards, sorted downwards |
| `ReorderedContracts.ReorderingHiddenExactly` | tools/contract-impact.ts:111-293 | all reordered copies of a schema compare as unchanged exactly when the schema is stable in that sense |
| `ReorderedSnapshots.SemanticSame` | tools/contract-impact.ts:295-312 | dropping the generated fields respects key order |
| `ReorderedSnapshots.ReorderedSnapshotNoImpact` | tools/contract-impact.ts:338-520 | a valid snapshot with stable schemas against any reordered copy: the copy is valid, the list is empty, the verdict `no-impact` |
| `ReorderedSnapshots.ReorderedSnapshotNoImpactExactly` | tools/contract-impact.ts:338-520 | all valid reordered copies of a valid snapshot classify as `no-impact` exactly when its schemas are stable |
| `JsonScanner.Scanner.SkipWhitespace` | tools/release/release-intent.ts:21-23 | moves the cursor over the longest run of white space |
| `JsonScanner.Scanner.ReadStringToken` | tools/release/release-intent.ts:25-41 | moves behind the first unescaped quote and returns the text between, or fails |
| `JsonScanner.Scanner.ReadMemberName` | tools/release/release-intent.ts:59-71 | decodes the name, refuses a repeated one, and moves behind the colon; what it decodes to is `DecodesName` |
| `JsonScanner.Scanner.ReadSeparatorAt` | tools/release/release-intent.ts:73-81 | tells end, comma and neither apart, and moves behind the first two |
| `JsonScanner.Scanner.ReadMemberList` | tools/release/release-intent.ts:53-83 | the member loop, which fills the set of names, ends where `ReadMembers` says or with its error |
| `JsonScanner.Scanner.ReadItemList` | tools/release/release-intent.ts:88-105 | the item loop ends where `ReadItems` says or with its error |
| `JsonScanner.Scanner.ReadObject` | tools/release/release-intent.ts:50-84 | reading an object, empty or not |
| `JsonScanner.Scanner.ReadArray` | tools/release/release-intent.ts:85-106 | reading an array, empty or not |
| `JsonScanner.Scanner.ReadValueAt` | tools/release/release-intent.ts:43-114 | reading any value terminates, and ends where `ReadValue` says or with its error |
| `JsonScanner.RejectDuplicateJsonKeys` | tools/release/release-intent.ts:15-121 | the whole scan of any text, well formed or not: it terminates with the outcome of `Scanned` |
| `JsonGrammar.ReadsPieces` | tools/release/release-intent.ts:31-39 | for every way of escaping a string the closing quote is found where it is, never inside an escape |
| `JsonGrammar.DecodesName` | tools/release/release-intent.ts:60-60 | decoding a printed name gives its code units back, however each was written: as it is, as a two-character escape, or as four base-16 digits in either case |
| `JsonGrammar.DecodesHex` | tools/release/release-intent.ts:60-60 | `\u` and the four base-16 digits of a code unit, each in either case, decode to that code unit |
| `JsonShape.HexSpelled` | tools/release/release-intent.ts:60-60 | and every four such digits are the digits of the unit they decode to |
| `JsonGrammar.NumbersAreAtoms` | tools/release/release-intent.ts:107-113 | every number of section 6 of RFC 8259 is read as one token |
| `JsonGrammar.LiteralsAreAtoms` | tools/release/release-intent.ts:107-113 | `true`, `false` and `null` are read as one token |
| `JsonGrammar.NoDuplicateExactlyDistinct` | tools/release/release-intent.ts:53-66 | there is no first duplicate exactly when no object at any depth has two members with equal decoded names |
| `JsonGrammar.ScannerDecides` | tools/release/release-intent.ts:15-121 | on every printing of every JSON value the scan returns normally exactly when the names, as their code units and not their spellings, are distinct at every depth, and otherwise reports the first duplicate in reading order with its path |
| `JsonHoles.StrictIsValid` | tools/release/release-intent.ts:15-121 | the texts of RFC 8259 without repeated names are among those the scan passes |
| `JsonShape.ScannedExactly` | tools/release/release-intent.ts:15-121 | over all texts, the scan returns normally exactly for those of its grammar in which no object repeats a decoded name |
| `ArchitectureSplice.MarkerLine` | tools/architecture-diff.ts:396-407 | the search by jumps finds the first line that the marker fills, or none when there is none |
| `SpliceShape.WholeLineExactly` | tools/architecture-diff.ts:396-407 | a marker counts exactly where it stands between nothing or a line feed and nothing or a line ending |
| `ArchitectureSplice.SpliceSection` | tools/architecture-diff.ts:363-389 | the splice is putting the section, in the description's line endings, between the two parts of the description's frame, with the same refusals; `SpliceAppends` and `SpliceReplaces` write the result out |
| `SpliceShape.SpliceAppends` | tools/architecture-diff.ts:375-389 | into a description without a section the section goes behind it: after one line ending of the description where it ends in a line feed, after two where it does not, so behind an empty line |
| `SpliceShape.SpliceReplaces` | tools/architecture-diff.ts:375-385 | otherwise it takes the place of the first opening marker that fills a line, up to the first closing one behind it |
| `SpliceShape.SpliceUnclosed` | tools/architecture-diff.ts:379-384 | an opening marker without a closing one is refused |
| `SpliceShape.SpliceRefuses` | tools/architecture-diff.ts:364-373 | a section is refused exactly when it is not proper |
| `SpliceShape.ProperExactly` | tools/architecture-diff.ts:364-373 | proper: it begins and ends with the markers, which stand nowhere else in it |
| `SpliceShape.StripExactly` | tools/architecture-diff.ts:364-364 | one line ending at the section's end is dropped, with its return, and nothing else |
| `SpliceShape.RelinedExactly` | tools/architecture-diff.ts:375-376 | the section is inserted line by line, each line feed with or without its return becoming the description's line ending |
| `ArchitectureSplice.OutsideKept` | tools/architecture-diff.ts:357-389 | for any section and line endings, all text before and behind the old section is kept, and an append keeps the whole description |
| `ArchitectureSplice.FrameKeptExactly` | tools/architecture-diff.ts:363-389 | for a section with markers on their own lines and no `\r\r\n` (settled), a splice keeps the description's frame and line ending, exactly unless the description has no section and no CRLF and ends in a carriage return (the trap) |
| `ArchitectureSplice.SpliceIsReadExactly` | tools/architecture-diff.ts:363-389 | put then get: a settled section stands in the result in the description's line endings, exactly unless in the trap the last line is the opening marker itself |
| `ArchitectureSplice.LastSpliceWinsExactly` | tools/architecture-diff.ts:363-389 | put then put: splicing a settled section and then any other is splicing the other, exactly outside the trap |
| `ArchitectureSplice.LastSpliceNeedsSettled` | tools/architecture-diff.ts:363-389 | over all descriptions outside the trap that law holds exactly for the settled sections |
| `ArchitectureSplice.SpliceReadBack` | tools/architecture-diff.ts:363-389 | get then put: splicing in what stands there changes nothing, exactly when its line endings are the description's |
| `ArchitectureSplice.SecondSpliceExactly` | tools/architecture-diff.ts:375-388 | for a settled section a second splice changes nothing, exactly unless the description falls into the carriage-return trap |
| `ArchitectureSplice.SettledExactly` | tools/architecture-diff.ts:357-389 | a second splice into an empty description changes nothing exactly for the sections with markers on their own lines and no carriage return before a line break |
| `Paths.UnderExactly` | tools/architecture-diff.ts:76-76 | the test with `startsWith` and a slash holds exactly for a path and its ancestors |
| `Paths.RankExactly` | tools/architecture-diff.ts:77-78 | of two matching prefixes the longer text is the deeper directory, and `.` comes last |
| `Paths.DirnameExactly` | tools/architecture-graph.ts:591-594 | `posix.dirname` drops the last segment |
| `ArchitectureRoots.NodeForFile` | tools/architecture-diff.ts:68-84 | for any listing of the index the loop returns the node of the nearest ancestor with an entry |
| `ArchitectureRoots.LookupDeepest` | tools/architecture-diff.ts:63-84 | a lookup finds something exactly when some key is over the path, and then the node of the deepest one |
| `ArchitectureRoots.NearestAncestor` | tools/architecture-graph.ts:591-594 | the walk up stops at the nearest ancestor root, or at `.` |
| `ArchitectureRoots.PruneRoots` | tools/architecture-graph.ts:588-598 | keeps exactly the roots whose nearest ancestor root has another node or none |
| `ArchitectureRoots.PruningKeepsLookup` | tools/architecture-graph.ts:584-598 | without a `.` root, pruning changes the owner of no path, through any chain of dropped ancestors |
| `ArchitectureRoots.PrunedIsMinimal` | tools/architecture-graph.ts:584-598 | every entry that is kept is needed: without it its own path has another owner |
| `ArchitectureRoots.DotRootIsLost` | tools/architecture-graph.ts:591-595 | with a `.` root some file loses its owner |
| `ArchitectureRoots.PruningHarmlessExactly` | tools/architecture-graph.ts:584-598 | pruning keeps every lookup exactly for maps without a `.` root |
| `ArchitectureRoots.AddDirectory` | tools/architecture-graph.ts:859-867 | adds a directory and all directories above it, though it stops at the first one already there |
| `ArchitectureRoots.SourceDirectories` | tools/architecture-graph.ts:856-870 | exactly the directories below the workspace that hold a source file at some depth |
| `ArchitectureRoots.FindModule` | tools/architecture-graph.ts:937-944 | the deepest module directory over a file, or `root` |
| `ArchitectureRoots.ModuleDirectoryDeepest` | tools/architecture-graph.ts:911-944 | the walk finds a module directory exactly when there is one over the file, and then the deepest |
| `ArchitectureRoots.ModuleOfExactly` | tools/architecture-graph.ts:937-944 | a file's node is the deepest module directory that holds it, and `root` exactly when none does |
| `ArchitectureRoots.UiModuleRoots` | tools/architecture-graph.ts:958-975 | the emitted index: module directories in use, and the source roots when some file belongs to `root`, a module winning over a source root |
| `ArchitectureRoots.UiRootsExactly` | tools/architecture-graph.ts:958-975 | an entry is in the emitted index exactly when it is a module directory that is some file's node, under its own name, or else a source root under `root` when some file belongs to `root` |
| `ArchitectureRoots.IndexAgreesExactly` | tools/architecture-graph.ts:937-975 | for a scanned file the index and the walk agree exactly when no source root lies between the file and its module while `root` is a node |
| `ArchitectureRoots.IndexAgrees` | tools/architecture-graph.ts:919-975 | with no module directory strictly above a source root they agree for every scanned file |
| `ModuleCollapse.BelowExactly` | tools/architecture-graph.ts:642-644 | the prefix test with a dot holds exactly for the modules strictly below the package |
| `ModuleCollapse.NormalizeLevel` | tools/architecture-graph.ts:510-523 | the emitted level: nodes once each and sorted, and the sorted edges of the key map without self-edges |
| `ModuleNodes.NormalHolds` | tools/architecture-graph.ts:509-530 | every node once; of the edges between different nodes with one key exactly the last |
| `ModuleNodes.NormalInOrder` | tools/architecture-graph.ts:515-522 | nodes in the order of their texts, edges by their first and then their second node |
| `ModuleCollapse.AllEdgesExactly` | tools/architecture-graph.ts:516-519 | all edges between different nodes are emitted exactly when no two of them share a key |
| `ModuleCollapse.NoNulKeysApart` | tools/architecture-graph.ts:518-518 | names without a NUL never share a key |
| `ModuleCollapse.NulJoinsEdges` | tools/architecture-graph.ts:518-518 | two different edges with a NUL in a name become one |
| `ModuleCollapse.NormalDependsOnSetsExactly` | tools/architecture-graph.ts:509-530 | the output depends only on the set of nodes and the set of edges between different nodes, exactly when no two of the edges share a key |
| `ModuleCollapse.PythonModulesLevel` | tools/architecture-graph.ts:638-680 | the two loops emit the normal form of the projected modules and imports; which nodes and edges these are is `LevelNodesExactly` and `LevelEdgesExactly` |
| `ModuleNodes.NodeExactly` | tools/architecture-graph.ts:642-650 | the node of a module below the package is the module cut off `depth` segments below it, or the module itself when it is not that deep |
| `ModuleNodes.NoNodeExactly` | tools/architecture-graph.ts:643-650 | a module has no node exactly when it does not lie strictly below the package |
| `ModuleNodes.NodeTextExactly` | tools/architecture-graph.ts:642-650 | the same on texts: the package, a dot, and the first parts of the rest between its dots |
| `ModuleNodes.LevelNodesExactly` | tools/architecture-graph.ts:638-655 | the nodes of the level are exactly the listed modules below the package, so cut |
| `ModuleNodes.LevelEdgesExactly` | tools/architecture-graph.ts:656-661 | its edges, where no two projected imports share a key, are exactly the imports between modules with different nodes |
| `ModuleNodes.SharedNodeExactly` | tools/architecture-graph.ts:642-650 | two modules share a node exactly when they agree on their first `depth` segments below the package |
| `ModuleCollapse.LevelIsQuotientExactly` | tools/architecture-graph.ts:630-661 | the emitted level lists the nodes and edges of the quotient graph exactly when no two projected imports share a key; always each once and in order |
| `ModuleCollapse.LevelIsQuotient` | tools/architecture-graph.ts:630-661 | so it does when no module name holds a NUL |
| `ModuleCollapse.EdgeIsImport` | tools/architecture-graph.ts:657-661 | every collapsed edge comes from an import between modules of its two nodes |
| `ModuleCollapse.PathProjects` | tools/architecture-graph.ts:643-661 | every import path below the package projects to a path of the collapsed level between the nodes of its ends |
| `ModuleCollapse.CollapseTwice` | tools/architecture-graph.ts:643-661 | collapsing deep and then shallow is collapsing shallow |
| `ModuleCollapse.LevelTwice` | tools/architecture-graph.ts:638-680 | the same for emitted levels, of module names without a NUL: nodes, edges and order |
| `MermaidIds.FindId` | tools/architecture-graph.ts:1109-1111 | the suffix search terminates with the first candidate that is free |
| `MermaidIds.FreeIdExactly` | tools/architecture-graph.ts:1109-1111 | the id is the base, or the base with the least number from 2 on that makes it new |
| `MermaidIds.SimplifiedExactly` | tools/architecture-graph.ts:1109-1109 | simplifying keeps every word of letters and digits and puts one underscore for each run of other characters |
| `MermaidIds.TriesBounded` | tools/architecture-graph.ts:1111-1111 | with `n` used ids one of the first `n + 1` candidates is free |
| `MermaidIds.MermaidIds` | tools/architecture-graph.ts:1105-1116 | the loop assigns what `Assigned` says |
| `MermaidIds.IdsAreUnique` | tools/architecture-graph.ts:1104-1116 | every node has an id and different nodes have different ids, for any list of nodes |
| `MermaidIds.IdsAreSafe` | tools/architecture-graph.ts:1109-1111 | ids consist of letters, digits and underscores and begin with `n_` |
| `Decimals.DecimalInjective` | tools/architecture-graph.ts:1111-1111 | different suffixes print differently |
| `ReleaseIndex.AlwaysConsistent` | tools/update-release-index.ts:61-169 | after every run of promotions and supersessions from the empty index the consistency check passes |
| `ReleaseSteps.ConsistentExactly` | tools/update-release-index.ts:61-87 | the check passes exactly when no release is stable or the stable one is a released entry with its digest |
| `ReleaseSteps.PromoteExactly` | tools/update-release-index.ts:96-128 | a promotion succeeds exactly for a new entry or the same one again; then the stable entry is this one, with its digest and time, and all other entries stay |
| `ReleaseSteps.SupersedeExactly` | tools/update-release-index.ts:131-168 | a supersession succeeds exactly for two different released entries with their digests and a reason; then the stable entry is the replacement, the defective entry says what replaced it and why, and all others stay |
| `ReleaseSteps.TagExactly` | tools/update-release-index.ts:47-50 | a tag is `v` and three dotted numbers, and perhaps a hyphen and a suffix |
| `ReleaseIndex.RecordsAreImmutable` | tools/update-release-index.ts:100-157 | in no later index does an entry vanish, change its digest or candidate id, or stop being superseded by what superseded it |
| `ReleaseIndex.PromoteKeepsOrder` | tools/update-release-index.ts:96-128 | a promotion keeps the history of supersessions: each replacement is released or was superseded later |
| `ReleaseIndex.SupersedeKeepsOrder` | tools/update-release-index.ts:131-168 | a supersession extends that history by the defective tag |
| `ReleaseIndex.RunKeepsOrder` | tools/update-release-index.ts:89-169 | after every run there is such a history of exactly the superseded tags |
| `ReleaseIndex.ReplacementsLeadToRelease` | tools/update-release-index.ts:131-157 | from every superseded entry `supersededBy` leads, without meeting a tag twice, to a released entry |
| `ReleaseIndex.ReleasedIsNotReplaced` | tools/update-release-index.ts:113-117 | a released entry names no replacement, so the chain ends there |
| `CaptureResolver.SelectsHighest` | tools/resolve-capture-release.ts:107-152 | the selected tag is published, plain and not superseded, no such release is higher, and selection fails exactly when there is none |
| `ReleaseSteps.VersionOrderExactly` | tools/resolve-capture-release.ts:103-113 | versions are ordered by their first component that differs |
| `ReleaseSteps.VersionPrinted` | tools/resolve-capture-release.ts:103-105 | the numbers read from a tag are the ones it was printed from |
| `ReleaseSteps.RouteAExactly` | tools/resolve-capture-release.ts:107-284 | route-a succeeds exactly when there is an eligible release whose highest one has an attested manifest; version, digest, contract set and whether the migration needs review are those of that manifest |
| `ReleaseSteps.StableExactly` | tools/resolve-capture-release.ts:181-284 | the stable mode succeeds exactly when both manifests certify the entry the index points at, and gives that entry's digest, contract set and classification |
| `CaptureResolver.SelectedTag` | tools/resolve-capture-release.ts:250-262 | in both modes the tag is a plain version that is not superseded, and in stable mode a released one |
| `CaptureResolver.SupersededIsNeverResolved` | tools/resolve-capture-release.ts:241-284 | once a tag is superseded, no later index of any run lets either mode return it |
| `CaptureResolver.RouteAResolvesHighest` | tools/resolve-capture-release.ts:260-262 | a route-a result is at least as high as every published release that is not superseded |
| `CaptureResolver.StableResolvesProtected` | tools/resolve-capture-release.ts:181-239 | a stable result is the released entry the index points at, with its digest, candidate id and recorded classification |
| `CaptureResolver.PromotedIsResolved` | tools/resolve-capture-release.ts:253-259 | right after a promotion the stable mode resolves, if anything, the promoted tag and digest |
| `CheckpointJournal.CheckEntry` | tools/acceptance-checkpoint-journal.ts:97-108 | one turn of the check on its three variables accepts exactly the entries that are a step from the current phase |
| `CheckpointJournal.CheckEntries` | tools/acceptance-checkpoint-journal.ts:95-109 | the loop accepts exactly the entry lists of a phase and finds the running checkpoint |
| `CheckpointJournal.ValidState` | tools/acceptance-checkpoint-journal.ts:91-113 | the check accepts exactly the valid journals, given in closed form |
| `CheckpointJournal.RecognizedExactly` | tools/acceptance-checkpoint-journal.ts:91-113 | reading entry by entry and the closed form describe the same journals |
| `CheckpointJournal.ValidLength` | tools/acceptance-checkpoint-journal.ts:94-94 | a valid journal has at most 10 entries, one less than the code allows, and one active checkpoint |
| `CheckpointJournal.GuardsExactly` | tools/acceptance-checkpoint-journal.ts:124-136 | in a valid journal the guards of begin, complete and fail let through exactly the steps between phases, and build the next phase's journal |
| `CheckpointJournal.AcceptedIsValid` | tools/acceptance-checkpoint-journal.ts:123-137 | whatever the guards accept passes the check, so saving never refuses it |
| `CheckpointJournal.Writer.Save` | tools/acceptance-checkpoint-journal.ts:123-123 | replaces the current journal exactly when the new one passes the check |
| `CheckpointJournal.Writer.Transition` | tools/acceptance-checkpoint-journal.ts:124-137 | succeeds exactly when its guards do, keeps the journal valid, and changes nothing otherwise |
| `CheckpointJournal.Writer.FailActive` | tools/acceptance-checkpoint-journal.ts:138-138 | fails the running checkpoint, does nothing without one |
| `CheckpointJournal.OpenWriter` | tools/acceptance-checkpoint-journal.ts:80-122 | opens for usable names on exactly the missing and the valid journals, with that journal; a bad name, a file that cannot be read and an invalid journal are three different errors |
| `CheckpointJournal.ValidExactlyReachable` | tools/acceptance-checkpoint-journal.ts:88-137 | the journals that pass the check are exactly those some run of moves reaches from the initial one |
| `CheckpointJournal.ReadJournal` | tools/acceptance-checkpoint-journal.ts:140-143 | refuses bad names, and tells absent, invalid, active and complete journals apart |
| `CheckpointJournal.CoverageExactly` | tools/acceptance-checkpoint-journal.ts:144-148 | a valid journal covers all checkpoints exactly when all five are completed and nothing is running |
| `CheckpointJournal.PassesExactly` | tools/acceptance-checkpoint-journal.ts:151-167 | a pass takes exactly a complete journal with coverage, a child that exited 0 without error, a completed manifest with complete cleanup, and no failed outer scope; artifacts may then be cleaned, and `MayCleanArtifactsExactly` says when they may at all |
| `TerminalRecords.ProducerCompletedExactly` | tools/acceptance-checkpoint-journal.ts:149-163 | the producer completed exactly when no entry failed, nothing is active, the manifest is completed, and its cleanup has flags that are all true |
| `TerminalRecords.MayCleanArtifactsExactly` | tools/acceptance-checkpoint-journal.ts:149-167 | artifacts may be cleaned exactly when that holds and the outer scope did not fail |
| `TerminalRecords.ArtifactsExactly` | tools/acceptance-checkpoint-journal.ts:151-163 | artifacts are counted exactly from a completed manifest of a run in which nothing failed or stayed active |
| `TerminalRecords.PrimaryExactly` | tools/acceptance-checkpoint-journal.ts:149-163 | the exact condition of each primary code, and of there being none |
| `TerminalRecords.FailureIsNamed` | tools/acceptance-checkpoint-journal.ts:152-153 | the first failed checkpoint is the one named, with its code |
| `TerminalRecords.InterruptionIsNamed` | tools/acceptance-checkpoint-journal.ts:154-155 | without a failure a checkpoint that is still active is named as interrupted |
| `CheckpointJournal.PassMeansAllCompleted` | tools/acceptance-checkpoint-journal.ts:151-167 | a pass on a valid journal means that it is the one with all checkpoints completed |
| `CheckpointJournal.FailureNeverPasses` | tools/acceptance-checkpoint-journal.ts:151-167 | a run that ever recorded a failure never passes, whatever follows, and the terminal record names that failure |
| `WorkerStages.SanitizedIsAllowed` | tools/generated-worker-stage-policy.ts:206-222 | what sanitizing returns is allowed, so sanitizing is idempotent |
| `StageNames.SanitizeExactly` | tools/generated-worker-stage-policy.ts:206-218 | a recognized name comes out as it is, any other name as the sentinel of the first prefix listed for it, and nothing else comes out |
| `StageNames.NameExactly` | tools/generated-worker-stage-policy.ts:203-209 | names are exactly words of small letters and digits joined by single hyphens |
| `StageNames.MatchesExactly` | tools/generated-worker-stage-policy.ts:150-162 | a name belongs to a family exactly when it is spelled piece by piece: fixed texts, one of some words, at most so many digits |
| `StageNames.SanitizeAllExactly` | tools/generated-worker-stage-policy.ts:224-228 | a sequence is sanitized stage by stage, in order, and what is dropped leaves no gap |
| `WorkerStages.AddCritical` | tools/generated-worker-stage-policy.ts:248-254 | selects the first index of each critical stage, and no other |
| `WorkerStages.FillUp` | tools/generated-worker-stage-policy.ts:255-257 | fills the remaining places with the lowest free indexes |
| `WorkerStages.Render` | tools/generated-worker-stage-policy.ts:258-268 | the selected stages in order, with one marker where the first one is missing |
| `WorkerStages.BoundWorkerStageSequence` | tools/generated-worker-stage-policy.ts:224-270 | all loops together compute `Bounded` |
| `WorkerStages.EssentialSize` | tools/generated-worker-stage-policy.ts:230-254 | head, tail and critical stages always fit: 16 + 8 + 6 places of 31 |
| `WorkerStages.ShortIsKept` | tools/generated-worker-stage-policy.ts:225-229 | up to 32 sanitized stages are returned as they are |
| `WorkerStages.Truncated` | tools/generated-worker-stage-policy.ts:230-269 | a longer input gives exactly 32 stages: one marker at the first omitted place, and an in-order subsequence with the first 16, the last 8, the first copy of each critical stage, and then the lowest indexes |
| `WorkerStages.AlwaysBounded` | tools/generated-worker-stage-policy.ts:224-270 | at most 32 stages for any input |
| `WorkerStages.BoundedAllowed` | tools/generated-worker-stage-policy.ts:220-270 | every returned stage is allowed |
| `WorkerStages.BoundedIsIdempotent` | tools/generated-worker-stage-policy.ts:224-270 | bounding a bounded sequence changes nothing |
| `WorkerStageTable.TableIsSound` | tools/generated-worker-stage-policy.ts:35-204 | this release's table satisfies what the laws above ask of a table |
| `VersionPlan.PlanReleaseVersion` | tools/release/sync-versions.ts:36-48 | validates every owner before it returns a change, and returns a change for exactly the files the version alters |
| `PlannedChanges.PlanExactly` | tools/release/sync-versions.ts:39-48 | the plan holds, in the owners' order, exactly the files the version alters, each with the version in place of the value and all else as it was |
| `PlannedChanges.PlanRefusedExactly` | tools/release/sync-versions.ts:36-48 | it is refused exactly for a bad version, or with the first file that is missing or refused |
| `VersionPlan.PlanIsFresh` | tools/release/sync-versions.ts:43-48 | a plan starts from what the files hold and changes owner files only, each once |
| `VersionPlan.AppliedPlan` | tools/release/sync-versions.ts:43-48 | carrying out a plan puts the version into every owner file |
| `VersionPlan.Workspace.Restore` | tools/release/sync-versions.ts:86-93 | undoes the writes in reverse order; only files whose restoring write failed can differ from before, and exactly those are reported |
| `VersionPlan.Workspace.WriteAll` | tools/release/sync-versions.ts:77-101 | either every planned file holds its planned content, or the first failing read or write is undone, whatever a failed write left behind |
| `VersionPlan.Workspace.Apply` | tools/release/sync-versions.ts:67-102 | refuses a stale plan without writing, and otherwise applies it all or rolls it back |
| `VersionPlan.NothingLost` | tools/release/sync-versions.ts:86-98 | no file is reported exactly when all restoring writes succeeded |
| `VersionPlan.UndoneIsAtomic` | tools/release/sync-versions.ts:85-100 | if a write fails at any index and restoring succeeds, every file is exactly as before |
| `VersionPlan.ReplanExactly` | tools/release/sync-versions.ts:36-102 | after a plan is carried out, planning the same version finds nothing to do exactly when every owner finds its value again in the stamped file |
| `VersionOwners.VersionIsPlain` | tools/release/version-owners.ts:56-64 | an accepted version holds no quote and no line break, so it can stand in a value |
| `OwnerTexts.VersionExactly` | tools/release/version-owners.ts:56-64 | accepted versions are exactly three numbers without leading zeros between dots, and perhaps a hyphen and dotted identifiers |
| `OwnerTexts.MatchExactly` | tools/release/version-owners.ts:13-54 | a pattern matches exactly a text that introduces a value, written out for JSON, TOML and Python, and then a non-empty value up to its closing quote |
| `OwnerTexts.OnlyValueExactly` | tools/release/version-owners.ts:103-108 | a value is found exactly when there is a match and no other begins outside it |
| `OwnerTexts.HeaderExactly` | tools/release/version-owners.ts:85-92 | a section's header is exactly a line of blanks, the name, blanks and perhaps a comment |
| `OwnerTexts.BodyExactly` | tools/release/version-owners.ts:85-102 | a section's body is found exactly when one line is its header, and reaches to the next line that opens a section |
| `OwnerTexts.FoundExactly` | tools/release/version-owners.ts:82-110 | a file states its version at a place exactly when its body holds one match there and its value is a version |
| `OwnerTexts.OwnersAreSound` | tools/release/version-owners.ts:22-54 | the owner table is of the kind those laws are about |
| `VersionOwners.OnlyValueStable` | tools/release/version-owners.ts:103-127 | with the version stamped in, the pattern matches at the same place and nowhere else |
| `VersionOwners.BodyStable` | tools/release/version-owners.ts:85-102 | the TOML section is found again around the stamped value |
| `VersionOwners.FindStable` | tools/release/version-owners.ts:82-127 | a version stamped where the value was found is found there again, for JSON, TOML and Python patterns |
| `VersionOwners.OwnersUsable` | tools/release/version-owners.ts:13-54 | every owner in the table meets what the laws above ask of an owner |
| `VersionOwners.OwnerSettlesExactly` | tools/release/version-owners.ts:66-128 | a stamped file settles always for TOML and Python, and for JSON exactly when the strict reading finds the version at the top level |
| `JsonHoles.StringQuote` | tools/release/version-owners.ts:103-108 | a quoted value found behind a name's quote and a colon is never the middle or the end of a string token |
| `JsonHoles.FillObject` | tools/release/version-owners.ts:103-127 | such a value is a string of the tree, at any depth, and other plain characters in its place are the text of the same tree with that string changed |
| `JsonOwners.FoundIsHeld` | tools/release/version-owners.ts:17-17 | what the JSON pattern matches is such a value |
| `JsonOwners.StampedDocument` | tools/release/sync-versions.ts:45-46 | stamping a version into a JSON text without repeated names gives one, with one string changed in one member of the top level |
| `JsonOwners.JsonOwnerSettlesExactly` | tools/release/version-owners.ts:103-127 | a JSON owner settles exactly when the value found was the top level's own under that name, or already the version |
| `JsonOwners.AppliedVersionSettlesExactly` | tools/release/sync-versions.ts:36-102 | after a version is applied to all owners, planning it again finds nothing to do exactly when that holds for every JSON owner |
| `JsonOwners.OwnerFieldsArePlain` | tools/release/version-owners.ts:22-54 | the fields of the owner table are of the kind those laws are about |
| `NestedVersion.OnlyNested` | tools/release/version-owners.ts:103-107 | in the sample file the pattern matches the nested field only |
| `NestedVersion.NestedOwnerStaysUnsettled` | tools/release/version-owners.ts:103-128 | that file is accepted as an owner of 1.0.0, and stamping 2.0.0 does not settle it |
| `Ratchet.NumberKeys` | tools/dead-code-gate.ts:173-180 | the loop over the counts gives each repeat its ordinal |
| `Ratchet.NumberedAt` | tools/dead-code-gate.ts:173-180 | the `n`-th finding with a key is labelled with the key alone when it is the first, and with `#n` behind it otherwise |
| `Ratchet.MissingExactly` | tools/dead-code-gate.ts:231-241 | the new keys are the current ones that the baseline lacks, in their own order, and the stale ones the reverse |
| `Ratchet.CheckRatchetExactly` | tools/dead-code-gate.ts:403-439 | the exit code is 1 exactly for a new key, or for a stale one in continuous integration |
| `Ratchet.LabelsKnownExactly` | tools/dead-code-gate.ts:172-180 | over plain keys, all numbered findings are known exactly when no key occurs more often |
| `Ratchet.RatchetCountsRepeats` | tools/dead-code-gate.ts:403-439 | over plain keys, in any order: nothing is added exactly when the multiset is contained in the baseline's, and the strict check passes exactly when the multisets are equal |
| `Ratchet.RepeatIsHidden` | tools/dead-code-gate.ts:172-180 | a key that reads like a repeat of another makes two different multisets number alike |
| `Ratchet.CountsRepeatsExactly` | tools/dead-code-gate.ts:231-241 | comparing numbered findings compares multisets, for all findings with keys from a set, exactly when the set is plain |
| `ConsumerLedger.RunKeyInjective` | tools/consumer-gate.ts:183-192 | a key of repository, colon and run id tells both, even when the repository has colons |
| `ConsumerLedger.CheckGates` | tools/verify-promotion-evidence.ts:286-311 | accepts exactly verified results of pairwise distinct required repositories |
| `ConsumerLedger.CheckDigests` | tools/verify-promotion-evidence.ts:316-350 | accepts exactly valid digests with distinct keys, each of some gate's run |
| `ConsumerLedger.VerifyConsumerLedger` | tools/verify-promotion-evidence.ts:240-352 | accepts exactly the ledgers of `Accepts` |
| `LedgerShape.RequiredExactly` | tools/verify-promotion-evidence.ts:273-276 | the required gates are those for every candidate, and all of them as soon as the classification is not `no-impact` |
| `LedgerShape.ExpectedGateExactly` | tools/verify-promotion-evidence.ts:277-280 | a repository is held to the last required gate listed for it |
| `LedgerShape.GateOkExactly` | tools/consumer-gate.ts:59-123 | a result is accepted exactly as a passing run of that gate's workflow on this candidate and manifest, with a run id, a commit and times in order |
| `LedgerShape.AcceptedExactly` | tools/verify-promotion-evidence.ts:240-352 | a ledger is accepted exactly when it names the candidate, holds one such result for every repository with a required gate and no other, and its well-formed digests go one to one with the results |
| `ConsumerLedger.AcceptedGates` | tools/verify-promotion-evidence.ts:277-311 | the gates of an accepted ledger are in bijection with the required repositories |
| `ConsumerLedger.AcceptedDigests` | tools/verify-promotion-evidence.ts:312-350 | its digests are in bijection with its gates |
| `LedgerShape.BuiltExactly` | tools/consumer-gate.ts:158-202 | a ledger is built exactly from results that go one to one with well-formed digests, for a candidate named by two digests |
| `LedgerShape.BuiltLedger` | tools/consumer-gate.ts:203-216 | it holds exactly these results and digests, each list by repository, and says the candidate passed |
| `ConsumerLedger.ProducerAcceptedExactly` | tools/consumer-gate.ts:158-216 | a ledger the producer builds is accepted exactly when its classification is one of the four and its results are verified ones for exactly the required repositories, each once |
| `ConsumerLedger.VerifyReports` | tools/verify-promotion-evidence.ts:175-216 | accepts exactly the passing reports of this candidate, one for each required verification and no other |
| `ConsumerLedger.VerifyProducerJobs` | tools/verify-promotion-evidence.ts:149-173 | accepts exactly the job lists without repeated names in which every required job passed |
| `AcceptanceScope.SameSetExactly` | tools/three-project-acceptance.ts:1179-1188 | against a list without repeats the test means: the same elements, each once |
| `AcceptanceScope.ValidateIdentityRecords` | tools/three-project-acceptance.ts:1079-1160 | no error exactly when owned identities are distinct and disjoint from the baseline, everything is bound to this run, roles are expected, and every listener has an owner of its role |
| `AcceptanceScope.ValidateAcceptanceScope` | tools/three-project-acceptance.ts:998-1071 | no error exactly for a scope that belongs to this child, is terminal and complete, keeps the contract and has valid identities |
| `ScopeShape.ValidScopeExactly` | tools/three-project-acceptance.ts:998-1160 | a scope is valid exactly when it is the launched, finished child's with the manifest's artifacts, keeps the contract, has every required role and path, and all its records belong to it, stated on the recorded values |
| `ScopeShape.ServesExactly` | tools/three-project-acceptance.ts:1129-1148 | which process may own a listener: the session a debugging port, a sidecar the runtime's, a model worker the model's |
| `ScopeShape.ListenersExactly` | tools/three-project-acceptance.ts:1127-1158 | every listener is local, of this run, in an expected role, recorded once, and served by a recorded process of that role |
| `AcceptanceScope.InspectExistingPaths` | tools/three-project-acceptance.ts:1433-1455 | a path is present or absent only when two looks agree, and unknown otherwise |
| `AcceptanceScope.FlagsFor` | tools/three-project-acceptance.ts:1236-1271 | each cleanup flag holds exactly when what it names was found gone, or the baseline present |
| `AcceptanceScope.VerifyRecordedCleanupScope` | tools/three-project-acceptance.ts:1190-1290 | nothing is asked about an invalid scope; of a valid one each record is asked about once and each path twice, and the proof is without errors exactly when every owned process and listener is absent, every baseline process present and every path gone |
| `AcceptanceScope.CleanMeansAllFlags` | tools/three-project-acceptance.ts:1255-1288 | a proof without errors has every flag set |
| `AcceptanceSequence.VerifyCleanup` | tools/three-project-acceptance.ts:745-750 | a verifier that throws counts as a failed proof |
| `AcceptanceSequence.RunProject` | tools/three-project-acceptance.ts:702-801 | status, verified cleanup and whether the run goes on, each stated exactly |
| `AcceptanceSequence.ProceedsIsEstablished` | tools/three-project-acceptance.ts:739-801 | a project that lets the run go on exited 0 with a valid completed manifest, and under the default verifier left nothing recorded behind |
| `AcceptanceSequence.RunAcceptanceSequence` | tools/three-project-acceptance.ts:668-804 | for any answers of the hooks the next project is spawned only after the one before it was established; the exit code is 0 exactly when all planned projects got that far; there are no results exactly when reading what a child left throws |
| `AcceptanceSequence.ExitCodeExactly` | tools/three-project-acceptance.ts:653-666 | the exit code computed from the results is 0 exactly when every planned project proceeded |

## Left out

- JSON numbers are opaque tokens; `JSON.stringify` rewriting a number, and parsing itself, are not part of this model.
- Strings in `JsonText` are sequences of characters: the escapes of lone surrogates, and sorting by UTF-16 code units where it differs from sorting by characters, are not part of this model. `JsonScanner` and `JsonGrammar` do work on UTF-16 code units.
- JavaScript objects: prototype lookup by `in`, and integer-like keys that come first in key order.
- `localeCompare` is a collation given as a parameter, of which nothing is assumed.
- Schema meaning treats `$ref`, `patternProperties` and every keyword not named in `SchemaMeaning` as a local predicate of key, value and document that cannot see key order.
- SchemaVerdicts.CandidateNarrows: whether a property fits under a schema for unnamed members is a question about documents; only where that schema is absent or true is it read off.
- JsonShape.ScannedExactly: which error a text that is no text of the grammar is refused with is only what `Scanned` says.
- `renderSection` and the Markdown of a pull-request section; `edgesMissingFrom`, `touchedNodes` and `selectNeighbourhood`, which are filters whose properties are read off.
- ModuleCollapse.NormalizeLevel: the record of tags that is sorted and passed along is not modelled.
- ModuleCollapse.PythonModulesLevel: roots, tags, groups and the boundary label of the level are not modelled.
- `projectsLevel` and `javaPackagesLevel`, which add a parse in front of the same normal form and pruning; the sorted order of a `roots` record.
- Parsing of TypeScript sources: matched directories are an input of the module walk, and the edges of `uiModulesLevel` are not modelled.
- Reading and writing the release index, attestations, downloads and SHA digests: a resolver's sources are arbitrary functions of the tag, and a file that is missing, malformed or unattested is a refusal.
- ReleaseSteps.VersionOrderExactly: version numbers are unbounded; that `Number` rounds those above 2^53 is not modelled.
- The journal's files and their atomic replacement; entries have the right shape, and JSON of another shape is one case, `Shapeless`.
- The terminal record's own publication and the manifest digest in it.
- Stage families are patterns of pieces, equal to the regular expressions on names of the allowed length.
- VersionPlan.PlanReleaseVersion: the follow-up list and the check of generated declarations (tools/release/sync-versions.ts:49-63) are not modelled, and the release intent that supplies a missing version is a parameter.
- JsonOwners.JsonOwnerSettlesExactly: the strict reading is any function that knows what JSON texts without repeated names state, and each character of the file is one code unit, so characters beyond the basic plane are not covered.
- VersionOwners.OnlyValueStable: a line starts behind a line feed or a carriage return; the line separators U+2028 and U+2029 are not modelled.
- Knip, Vulture and Rust findings arrive as keys; `mergeModes` and the texts that are printed are not modelled.
- Untyped JSON in the ledger and evidence checks: records have their fields, extra keys and wrong types are refused before this model begins.
- Process identities, hosts and paths arrive normalized, as keys; probes, hooks and the contents of a manifest (fixture, evidence, artifacts) are given by their outcome.
- AcceptanceSequence.RunProject: the error code and the sanitized error texts of a result are not modelled.
- The command lines of the tools, `gh`, npm, cargo, PowerShell and the file system beyond reading and writing version owners.
