# tag-std safety tags, modelled in Dafny

tag-std lets the author of an `unsafe` function attach *safety tags* to it,
for example `#[safety { ValidPtr(p), Align(p, T): "reason"; any(Init, Typed) }]`,
and checks that every call of such a function *discharges* those tags:
an enclosing node of the call must name them again. This project models the
sequential logic of that system as pure Dafny functions over strings,
sequences and maps, and proves what each part promises.

- **Tag grammar and documentation** (`SafetyAttr`, `AnyTag`, `DocGen`,
  `Tokens`). Attribute text is split into `;`-separated groups of tags. A tag
  carries an optional type prefix (`precond.`, `hazard.`, `option.`) and
  optional arguments, and a group may end with a reason. Parsing and printing
  are proved inverse. A tag's description template is filled from its
  arguments as `{name}` substitution.
- **Registry and configuration** (`Registry`, `LegacyRegistry`,
  `ConfigEnv`). Tag tables from several documents are merged. Duplicate tags
  and the reserved name `any` are rejected, default types are supplied, and
  the doc-generation flags are ORed together. Where the configuration comes
  from is decided by the environment variables and file listings passed in as
  parameters.
- **Discharge tracker and scope walk** (`TagState`, `ScopeWalk`,
  `Diagnostics`, `DiagnosticLegacy`). Each definition gets its vanilla tags
  plus its `any` groups. For each call the state is refreshed, and each
  enclosing node's tags are discharged on the way outwards. The walk stops at
  the first node with tags or at the function, then asks once more what is
  left. A report is made at most once. Diagnostic titles and the four
  emit/abort modes are derived from that.
- **Usage statistics** (`Stats`, `StatCollect`). Counters per tag, per kind
  and per predicate, with 16-bit wrap-around, plus the line-span text.
- **Macro expansion** (`SplitAttrs`, `SafetyMacro`). Decides which
  attributes are moved out of an item and when documentation is generated.
- **Earlier revisions**, each in its own modules:
  - the flat-map trackers `FlatState`/`FlatTracker`/`FlatDiagnostic` of
    `safety-tool/src/analyze_hir` and `DemoTracker` of `demo/src`;
  - the property parsers `DemoProperty`/`DemoNamedArgs`/`DocMemo` of
    `demo/safety-parser`;
  - `DriverProperty`/`DriverNamedArgs`/`NamedArgSet` and
    `PrecondProperty`/`PrecondArgs` of `demo/rustc_driver`;
  - the attribute macros `ToolMacro` of `demo/safety-tool-macro`.

Panics and `unreachable!` are modelled as the `Err` case of
`Outcome.Result`, so every failing path of the source is a value the
contracts talk about. Syntax trees are reduced to the small `SynExpr.Expr`
datatype and to token runs. The compiler's ancestor chain of a call is a plain
list of nodes.

Where a source line is evidently wrong (see "## Findings"), the model keeps
both versions. The driver parser of `demo/rustc_driver` stores a `kind = "v"`
argument as a memo. Its reading functions therefore take a
`DriverNamedArgs.Reading`. `AsWritten` is the source's behaviour and
`Corrected` stores a kind argument. The driver's set builders and
`ToolMacro.Generate` are stated for both readings.

## Model

| member | source | states |
|---|---|---|
| SafetyAttr.ParseTagName | safety-tool/safety-parser/src/safety/mod.rs:181-193 | a tag name is an identifier that is not a keyword; without a `.` the type is None and the name is that identifier; at least one token is consumed and the rest is a suffix of the input |
| SafetyAttr.CheckType | safety-tool/safety-parser/src/safety/mod.rs:213-232 | succeeds exactly when the tag is defined and its explicit type is one of the declared types, or, with no explicit type, exactly one type is declared; every failure is a panic |
| SafetyAttr.ParseParenArgs | safety-tool/safety-parser/src/safety/mod.rs:82-90 | without a parenthesised group next the argument list is empty and nothing is consumed; otherwise every argument is a non-empty expression |
| SafetyAttr.ParseTag | safety-tool/safety-parser/src/safety/mod.rs:78-91 | a parsed tag consumes input, and when a configuration exists it has passed the type check |
| SafetyAttr.AfterTag | safety-tool/safety-parser/src/safety/mod.rs:93-107 | after a tag: `:` must be followed by a string, which becomes the reason; a `;` closes the group without being consumed; otherwise more tags follow, never starting with `;` or `:` |
| SafetyAttr.ParseGroupFrom | safety-tool/safety-parser/src/safety/mod.rs:72-110 | a group read from non-empty input holds at least one tag; without a reason it stops at the end or at a `;`; with a configuration every tag type-checks |
| SafetyAttr.ParseGroups | safety-tool/safety-parser/src/safety/mod.rs:54-57 | empty input yields zero groups; every group has at least one tag; with a configuration every tag of every group type-checks |
| SafetyAttr.ParseSafetyAttr | safety-tool/safety-parser/src/safety/mod.rs:26-39 | anything but exactly one attribute panics; the body of the single attribute is parsed as the group list, whatever its path |
| SafetyAttr.PropertyReason | safety-tool/safety-parser/src/safety/mod.rs:61-63 | one pair per tag of all groups |
| SafetyAttr.PropertyReasonAt | safety-tool/safety-parser/src/safety/mod.rs:61-63 | tag `i` of group `g` appears at its group's offset, paired with the reason of its own group |
| SafetyAttr.ParseTagNamePrinted | safety-tool/safety-parser/src/safety/mod.rs:181-193 | a printed `type.Name` or `Name` parses back to the same tag name and type |
| SafetyAttr.ParseArgsPrinted | safety-tool/safety-parser/src/safety/mod.rs:82-90 | comma-joined argument runs in parentheses parse back to the same arguments |
| SafetyAttr.ParseTagPrinted | safety-tool/safety-parser/src/safety/mod.rs:78-91 | a printed tag parses back to itself when the registry accepts it |
| SafetyAttr.AfterReason | safety-tool/safety-parser/src/safety/mod.rs:97-107 | `: "reason"` is read as the reason; a `;` closes the group; at the end more tags are expected |
| SafetyAttr.ParseGroupPrinted | safety-tool/safety-parser/src/safety/mod.rs:72-110 | printed tags, their reason and a remainder that is empty or starts with `;` parse back to exactly that group and remainder |
| SafetyAttr.ParsePrinted | safety-tool/safety-parser/src/safety/mod.rs:54-110 | every printable group list, printed with `;` between groups, parses back to itself, with or without a registry that accepts its tags |
| SafetyAttr.CheckOnlyRejects | safety-tool/safety-parser/src/safety/mod.rs:79-81 | a group that parses with a registry parses identically without one: the check only rejects |
| SafetyAttr.CheckOnlyRejectsGroups | safety-tool/safety-parser/src/safety/mod.rs:54-81 | the same for a whole group list |
| SafetyAttr.PlainTag | safety-tool/safety-parser/src/safety/mod.rs:185-191 | a plain identifier with no `.` and no parentheses after it is a tag with no type and no arguments |
| SafetyAttr.ReasonThenComma | safety-tool/safety-parser/src/safety/mod.rs:97-102 | for any two tag names that are not reserved words, `A: "reason", B: "reason"` is rejected: after a reason only `;` may follow |
| SafetyAttr.TypedTagWithArgs | safety-tool/safety-parser/src/safety/mod.rs:181-193 | for any tag name that is not a reserved word, `hazard.Name(x, y)` is one tag of that name, of type hazard, with arguments `x` and `y` |
| SafetyAttr.NoCommaNeeded | safety-tool/safety-parser/src/safety/mod.rs:93-96 | the `,` between tags is optional: for any two names that are not reserved words, `A B` is one group of two tags |
| AnyTag.Tags | safety-tool/safety-parser/src/safety/mod.rs:61-63 | the tags of a group list, flattened in source order, agree with the tags of `property_reason` |
| AnyTag.TagsAt | safety-tool/safety-parser/src/safety/mod.rs:61-63 | tag `i` of group `g` sits at its group's offset in the flattened list |
| DocGen.ExprToString | safety-tool/safety-parser/src/safety/utils.rs:3-10 | a single string-literal argument gives the text whose token form is that text in quotes, i.e. its value without the quotes; the token text is returned exactly when the argument is anything else |
| DocGen.Compile | safety-tool/safety-parser/src/safety/utils.rs:13-14 | a compiled template is normal and its text is the description; text without `{` always compiles |
| DocGen.CompileSource | safety-tool/safety-parser/src/safety/utils.rs:13-14 | compiling the text of a normal template gives the template back |
| DocGen.RenderPieces | safety-tool/safety-parser/src/safety/utils.rs:15 | rendering succeeds exactly when every placeholder has a value, and then each `{name}` is replaced by its value |
| DocGen.Template | safety-tool/safety-parser/src/safety/utils.rs:12-18 | the output is the filled template followed by exactly one appended newline; it fails exactly when the template does not compile or a placeholder is unbound |
| DocGen.PlainTemplate | safety-tool/safety-parser/src/safety/utils.rs:12-18 | a description without placeholders is copied unchanged, plus the newline |
| DocGen.ArgMap | safety-tool/safety-parser/src/safety/mod.rs:153-164 | the keys are exactly the declared argument names; the first `min(#inputs, #declared)` are bound to the input at the same position (the last occurrence of a repeated name wins); every other declared name is bound to the empty string |
| DocGen.Zip | safety-tool/safety-parser/src/safety/mod.rs:158 | collecting names and values into a map: the keys are the names, and a name's value is that of its last occurrence |
| DocGen.FillMissing | safety-tool/safety-parser/src/safety/mod.rs:160-164 | names already bound keep their values; declared names not yet bound get the empty string |
| DocGen.PropertyDoc | safety-tool/safety-parser/src/safety/mod.rs:150-167 | an undefined tag is an error; a tag without a description gives None; a generated doc ends with a newline |
| DocGen.InputStrings | safety-tool/safety-parser/src/safety/mod.rs:157 | the inputs rendered one by one, in order |
| DocGen.PropertyDocTotal | safety-tool/safety-parser/src/safety/mod.rs:150-167 | when the description only names declared arguments, the doc is always produced, whatever the number of inputs: missing and extra inputs are tolerated |
| DocGen.GroupDoc | safety-tool/safety-parser/src/safety/mod.rs:121-136 | the reason line comes first when there is one, then one tag line per tag in order; it fails exactly when some tag's doc fails |
| DocGen.TagLine | safety-tool/safety-parser/src/safety/mod.rs:127-132 | a tag line starts with `* Name`, and is exactly that when the tag has no doc |
| DocGen.TagLines | safety-tool/safety-parser/src/safety/mod.rs:126-134 | one line per tag, in order; it fails exactly when some tag's doc fails |
| AnyTag.ArgsInAnyTag | safety-tool/src/bin/safety-tool/analyze_hir/db/data.rs:179-182 | a tag yields `any` groups exactly when it is named `any`; then it yields one group with no reason whose tags are `InnerTags` of its arguments |
| AnyTag.InnerTags | safety-tool/src/bin/safety-tool/analyze_hir/db/data.rs:179-182 | a tag is inner exactly when some argument starts with an identifier and the tag is that identifier, untyped and without arguments; there are no more tags than arguments, and none exactly when no argument starts with an identifier |
| AnyTag.InnerTagsAppend | safety-tool/src/bin/safety-tool/analyze_hir/db/data.rs:179-182 | the inner tags of two argument lists in a row are those of each, in order |
| TagState.Insert | safety-tool/src/bin/safety-tool/analyze_hir/db/data.rs:105 | inserting a present key keeps the key order and updates only that entry; a new key is appended; keys stay unique |
| TagState.DedupFacts | safety-tool/src/bin/safety-tool/analyze_hir/db/data.rs:105-108 | collapsing repeats keeps the first occurrences in order, has no duplicates, and keeps exactly the names seen |
| TagState.ExtendAllPending | safety-tool/src/bin/safety-tool/analyze_hir/db/data.rs:105-108 | extending an all-false map with names keeps every flag false, and the keys are the names with repeats collapsed |
| TagState.Clear | safety-tool/src/bin/safety-tool/analyze_hir/db/data.rs:98-101 | both maps are emptied and the report-once flag is kept |
| TagState.Refresh | safety-tool/src/bin/safety-tool/analyze_hir/db/data.rs:103-109 | every vanilla tag pending, repeated names collapsed to one key in first-occurrence order; one all-pending map per `any` group, in order; the report-once flag unchanged |
| TagState.FirstDone | safety-tool/src/bin/safety-tool/analyze_hir/db/data.rs:117-122 | the first `any` group in which the tag is already discharged, or the number of groups |
| TagState.MarkGroups | safety-tool/src/bin/safety-tool/analyze_hir/db/data.rs:116-122 | the tag is marked in each group containing it, in order; the loop fails exactly when some group already has it discharged, the groups before that stay marked, and that group and the rest are unchanged |
| TagState.Discharge | safety-tool/src/bin/safety-tool/analyze_hir/db/data.rs:111-125 | a vanilla tag never touches the `any` groups: if already discharged the result is an error and the state is unchanged, otherwise only its flag is set; any other tag is marked in the `any` groups up to the first group where it is already discharged, which makes the result an error; the flag is kept |
| TagState.MarkedDone | safety-tool/src/bin/safety-tool/analyze_hir/db/data.rs:116-122 | before the first already-discharged group, every group containing the tag has it discharged |
| TagState.DischargeUnknown | safety-tool/src/bin/safety-tool/analyze_hir/db/data.rs:111-124 | a tag in neither map succeeds and changes nothing |
| TagState.QuoteJoin | safety-tool/src/bin/safety-tool/analyze_hir/db/data.rs:148 | names quoted in backticks and joined: empty for no names, starting with a backtick otherwise |
| TagState.Pending | safety-tool/src/bin/safety-tool/analyze_hir/db/data.rs:144-149 | the undischarged vanilla names, in map order: empty exactly when every entry is discharged |
| TagState.AnyEntries | safety-tool/src/bin/safety-tool/analyze_hir/db/data.rs:153-158 | one entry per `any` group with no discharged member: empty exactly when every group has one |
| TagState.Report | safety-tool/src/bin/safety-tool/analyze_hir/db/data.rs:143-159 | at most one vanilla entry plus one entry per `any` group |
| TagState.ReportEmptyIffDischarged | safety-tool/src/bin/safety-tool/analyze_hir/db/data.rs:127-159 | the report is empty exactly when every vanilla tag is discharged and every `any` group has a discharged member |
| TagState.Undischarged | safety-tool/src/bin/safety-tool/analyze_hir/db/data.rs:136-141 | once the flag is set nothing is reported and the state is unchanged; the first query sets the flag even when nothing remains, and returns the report |
| TagState.ReportsOnce | safety-tool/src/bin/safety-tool/analyze_hir/db/data.rs:93-141 | after one query no later query reports, whatever `refresh` and `discharge` calls come in between: neither resets the flag |
| TagState.DischargeAll | safety-tool/src/bin/safety-tool/analyze_hir/db/data.rs:111-125 | discharging a list of tags keeps the state well-formed |
| TagState.DischargeAllKeepsFlag | safety-tool/src/bin/safety-tool/analyze_hir/db/data.rs:111-125 | discharging never changes the report-once flag |
| TagState.VanillaNames | safety-tool/src/bin/safety-tool/analyze_hir/db/data.rs:183-185 | a name is vanilla exactly when some tag not named `any` carries it; there are no more names than tags |
| TagState.VanillaNamesAppend | safety-tool/src/bin/safety-tool/analyze_hir/db/data.rs:177-187 | the vanilla names of two tag lists in a row are those of each, in order |
| TagState.AnyGroupsOf | safety-tool/src/bin/safety-tool/analyze_hir/db/data.rs:179-182 | a group is an `any` group exactly when some tag named `any` has it as its inner names; there are no more groups than tags |
| TagState.AnyGroupsOfAppend | safety-tool/src/bin/safety-tool/analyze_hir/db/data.rs:177-187 | the `any` groups of two tag lists in a row are those of each, in order |
| TagState.EveryTagPlacedOnce | safety-tool/src/bin/safety-tool/analyze_hir/db/data.rs:177-187 | there are as many names and groups together as tags; tag `i`, if not `any`, is the vanilla name right after those of the tags before it, and if `any`, its inner names are the group right after those of the tags before it |
| TagState.PushAttr | safety-tool/src/bin/safety-tool/analyze_hir/db/data.rs:170-188 | what was collected stays in front of both lists; one name or group is added per tag of the attribute; the added names are exactly the attribute's tag names other than `any` |
| TagState.PushAttrPlaces | safety-tool/src/bin/safety-tool/analyze_hir/db/data.rs:177-187 | tag `i` of group `g` lands after what was collected and after the names or groups of the tags before it: as its name if it is not `any`, as its inner names if it is |
| TagState.PropertiesOf | safety-tool/src/bin/safety-tool/analyze_hir/db/data.rs:199-209 | over all attributes of a function, a name is vanilla and a group is an `any` group exactly when some attribute contributes it |
| TagState.PushProperties | safety-tool/src/bin/safety-tool/analyze_hir/db/data.rs:259-268 | appends every tag's name, `any` included, in source order: tag `i` of group `g` lands at its group's offset |
| TagState.Collect | safety-tool/src/bin/safety-tool/analyze_hir/db/data.rs:199-209 | the keys are exactly the hashes of functions with tool attributes; a key maps to the properties of its last tagged function |
| TagState.CollectStep | safety-tool/src/bin/safety-tool/analyze_hir/db/data.rs:199-209 | adding one more function keeps both facts about the collected map |
| TagState.NewToolAttrs | safety-tool/src/bin/safety-tool/analyze_hir/db/data.rs:199-212 | only functions with tool attributes get an entry, built from all their attributes; the tracker starts empty |
| TagState.GetTagsViaKey | safety-tool/src/bin/safety-tool/analyze_hir/db/data.rs:219-223 | an unknown key gives None and no change; a known key refreshes the one shared tracker with that function's tags |
| ScopeWalk.AttrTags | safety-tool/src/bin/safety-tool/analyze_hir/db/data.rs:244-252 | a node's tag names are empty exactly when none of its tool attributes holds a tag |
| ScopeWalk.Title | safety-tool/src/bin/safety-tool/analyze_hir/visit.rs:89-94 | the title ends with the report's entries joined by newlines, after a space for one entry and a newline otherwise; it starts with "Tag is " exactly when the joined report has no comma |
| ScopeWalk.Missing | safety-tool/src/bin/safety-tool/analyze_hir/visit.rs:96-99 | the diagnostic is of kind missing-discharges and points at the node's span relative to the body |
| ScopeWalk.CheckTagState | safety-tool/src/bin/safety-tool/analyze_hir/visit.rs:79-101 | the tracker is queried; a diagnostic is pushed exactly when the query reports, and never once the report flag is set |
| ScopeWalk.Check | safety-tool/src/bin/safety-tool/analyze_hir/visit.rs:41-55 | a node without tags changes nothing and says so; a node with tags discharges them all and queries, which sets the report flag; at most one diagnostic is added |
| ScopeWalk.Walk | safety-tool/src/bin/safety-tool/analyze_hir/visit.rs:63-72 | the walk over the enclosing nodes adds at most one diagnostic, and none once the report flag is set |
| ScopeWalk.CheckToolAttrs | safety-tool/src/bin/safety-tool/analyze_hir/visit.rs:27-76 | a callee without tags changes nothing; otherwise the report flag ends up set; at most one diagnostic is added, after the existing ones, and none if the flag was already set |
| ScopeWalk.CheckCalls | safety-tool/src/bin/safety-tool/analyze_hir/visit.rs:27-76 | checking every call keeps the tag table and only appends diagnostics |
| ScopeWalk.AtMostOneReport | safety-tool/src/bin/safety-tool/analyze_hir/db/data.rs:93-94 | however many calls the crate has, at most one missing-discharge diagnostic is ever pushed, because the report flag is never cleared |
| ScopeWalk.StopAt | safety-tool/src/bin/safety-tool/analyze_hir/visit.rs:63-72 | the walk stops at the first enclosing node that has tags or is the function item, and every node before it has no tags and is not the function item |
| ScopeWalk.DischargeForget | safety-tool/src/bin/safety-tool/analyze_hir/db/data.rs:111-125 | discharging does not depend on the report flag |
| ScopeWalk.DischargeAllForget | safety-tool/src/bin/safety-tool/analyze_hir/db/data.rs:111-125 | neither does discharging a list of tags |
| ScopeWalk.DischargeAllAppend | safety-tool/src/bin/safety-tool/analyze_hir/visit.rs:48-50 | discharging two lists in turn is discharging their concatenation |
| ScopeWalk.VisitedStep | safety-tool/src/bin/safety-tool/analyze_hir/visit.rs:63-72 | past an untagged node that is not the function item the walk goes on to the next one |
| ScopeWalk.WalkDischargesVisited | safety-tool/src/bin/safety-tool/analyze_hir/visit.rs:63-72 | the walk discharges exactly the tags of the nodes it visits, innermost first, and errors are ignored |
| ScopeWalk.CheckToolAttrsDischarges | safety-tool/src/bin/safety-tool/analyze_hir/visit.rs:56-75 | a checked call discharges the call node's tags and then those of the visited enclosing nodes, in that order; only the report flag can differ |
| ScopeWalk.WalkUntagged | safety-tool/src/bin/safety-tool/analyze_hir/visit.rs:63-72 | a walk over enclosing nodes without tags changes nothing |
| ScopeWalk.UntaggedScopeReportsAll | safety-tool/src/bin/safety-tool/analyze_hir/visit.rs:56-75 | when neither the call nor any visited node has tags, the final query reports every tag of the callee, at the call |
| ScopeWalk.TaggedCallDecides | safety-tool/src/bin/safety-tool/analyze_hir/visit.rs:56 | when the call node has tags its own query reports, so the enclosing nodes' tags can no longer discharge anything: the call node's result does not stop the walk, but its query uses up the report |
| ScopeWalk.JoinCommaFree | safety-tool/src/bin/safety-tool/analyze_hir/visit.rs:89-93 | a join with a comma-free separator has no comma exactly when no part has one |
| ScopeWalk.QuoteJoinCommaFree | safety-tool/src/bin/safety-tool/analyze_hir/db/data.rs:148 | comma-free names joined with ", " have no comma exactly when there is at most one |
| ScopeWalk.AnyEntriesCommaFree | safety-tool/src/bin/safety-tool/analyze_hir/db/data.rs:153-158 | the `any` entries have no comma exactly when every undischarged group has one member |
| ScopeWalk.SingularIffOneNameEach | safety-tool/src/bin/safety-tool/analyze_hir/visit.rs:93 | with comma-free names the title says "Tag is" exactly when at most one vanilla tag is pending and every undischarged `any` group has one member, however many entries the report has |
| ScopeWalk.TwoEntriesSayTagIs | safety-tool/src/bin/safety-tool/analyze_hir/visit.rs:92-94 | one pending vanilla tag and one single-member `any` group give two entries on separate lines under the title "Tag is" |
| ScopeWalk.TwoEntriesReport | safety-tool/src/bin/safety-tool/analyze_hir/db/data.rs:143-159 | that state reports exactly the two quoted names |
| Diagnostics.WrappingSub | safety-tool/src/bin/safety-tool/analyze_hir/diagnostics.rs:171 | the `u32` difference is the true difference when it is not negative, and otherwise that difference plus 2^32; it is always below 2^32 |
| Diagnostics.AnnoSpan | safety-tool/src/bin/safety-tool/analyze_hir/diagnostics.rs:167-172 | for a node inside the body the range is the node's offsets from the body start and as long as the node; both ends always fit in `u32` |
| Diagnostics.AnnoSpanWraps | safety-tool/src/bin/safety-tool/analyze_hir/diagnostics.rs:168-171 | a node starting six bytes before its body gets a start offset of 2^32 - 6 rather than a negative one |
| Diagnostics.Generate | safety-tool/src/bin/safety-tool/analyze_hir/diagnostics.rs:111-128 | a rendered diagnostic carries the given title and annotates the node's range relative to the body |
| Diagnostics.NewExitAndEmit | safety-tool/src/bin/safety-tool/analyze_hir/diagnostics.rs:55-67 | an unset variable gives abort-and-emit; a set value is accepted exactly when its lower-case form is one of the four mode names, and the mode chosen has that name; any other value is an invalid-value panic |
| Diagnostics.NewExitAndEmitInvertsName | safety-tool/src/bin/safety-tool/analyze_hir/diagnostics.rs:58-62 | each of the four modes is selected by its own name |
| Diagnostics.ModesAreFlagPairs | safety-tool/src/bin/safety-tool/analyze_hir/diagnostics.rs:69-77 | the abort and emit flags determine the mode and every pair of flags is one mode, so the four modes are exactly the four flag pairs |
| Diagnostics.PushMissingDischarge | safety-tool/src/bin/safety-tool/analyze_hir/diagnostics.rs:131-134 | the mode is kept, earlier diagnostics are kept in order, and exactly one missing-discharge diagnostic with the given title and range is appended |
| Diagnostics.PushDuplicateDischarge | safety-tool/src/bin/safety-tool/analyze_hir/diagnostics.rs:136-139 | the mode is kept, earlier diagnostics are kept in order, and exactly one duplicated-discharge diagnostic with the given title and range is appended |
| Diagnostics.Total | safety-tool/src/bin/safety-tool/analyze_hir/diagnostics.rs:80-87 | the totals name exactly the kinds that occur, each with its number of occurrences |
| Diagnostics.CountsCoverAll | safety-tool/src/bin/safety-tool/analyze_hir/diagnostics.rs:84 | the per-kind counts add up to the number of diagnostics |
| Diagnostics.CountAppendOne | safety-tool/src/bin/safety-tool/analyze_hir/diagnostics.rs:84 | appending one diagnostic raises the count of its own kind by one and no other count |
| Diagnostics.PushMissingCounts | safety-tool/src/bin/safety-tool/analyze_hir/diagnostics.rs:131-134 | pushing a missing discharge adds one to that kind's total and leaves the duplicated-discharge total unchanged |
| Diagnostics.PrintAll | safety-tool/src/bin/safety-tool/analyze_hir/diagnostics.rs:146-148 | every diagnostic is printed once, in order |
| Diagnostics.Emit | safety-tool/src/bin/safety-tool/analyze_hir/diagnostics.rs:142-155 | with no diagnostics nothing happens; diagnostics are printed, in order and first, exactly when there are some and the mode emits, and then one totals entry follows them with the count per kind; the process aborts exactly when there are diagnostics and the mode aborts, and the abort is the last event |
| Diagnostics.AbortComesLast | safety-tool/src/bin/safety-tool/analyze_hir/diagnostics.rs:144-154 | the process aborts exactly when there are diagnostics and the mode aborts, and nothing happens after the abort |
| DiagnosticLegacy.NewMissingDischarges | safety-tool/src/bin/safety-tool/analyze_hir/diagnostic.rs:20-22 | the diagnostic keeps the rendered text and is of the missing-discharges kind |
| DiagnosticLegacy.NewExitAndEmit | safety-tool/src/bin/safety-tool/analyze_hir/diagnostic.rs:44-56 | unset gives abort-and-emit; a value is accepted exactly when its lower-case form names a mode, which is then chosen; anything else panics |
| DiagnosticLegacy.SameModeAsCurrent | safety-tool/src/bin/safety-tool/analyze_hir/diagnostic.rs:44-66 | the older mode selection agrees with the current one on every value of the variable |
| DiagnosticLegacy.Total | safety-tool/src/bin/safety-tool/analyze_hir/diagnostic.rs:69-76 | with a single kind, the totals are empty for no diagnostics and otherwise count all of them |
| Stats.Inc | safety-tool/src/stat.rs:126 | a `u16` counter goes up by one, and from the largest value wraps to zero |
| Stats.Bump | safety-tool/src/stat.rs:125-135 | bumping a key already counted keeps the key order; a key not yet counted is appended at the end |
| Stats.BumpLookup | safety-tool/src/stat.rs:125-135 | bumping changes only the bumped key's counter: a present counter goes up by one with wrap-around, and a missing one appears at zero |
| Stats.BumpedBySome | safety-tool/src/stat.rs:126 | a present counter bumped `c` times holds its old value plus `c`, modulo 2^16 |
| Stats.BumpedByNone | safety-tool/src/stat.rs:126 | a counter missing at first is still missing after no bump, and otherwise holds the number of bumps less one |
| Stats.NewSpec | safety-tool/src/stat.rs:92-101 | the new spec holds exactly the registered tags, in registry order, each with its registry entry and no usage, and keeps the documentation flags |
| Stats.RequiresVanilla | safety-tool/src/stat.rs:155-157 | the tag is a `requires` use of the given single property with no doc |
| Stats.RequiresAny | safety-tool/src/stat.rs:159-161 | the tag is a `requires` use of the given `any` groups with no doc |
| Stats.TagUses | safety-tool/src/stat.rs:39-56 | a single tag is counted once under its own name; an `any` tag is counted once per inner tag of every group, in order, each under that tag's name and with the outer predicate |
| Stats.GetUsage | safety-tool/src/stat.rs:103-109 | the usage is found exactly for a registered name; any other name panics |
| Stats.ApplyUse | safety-tool/src/stat.rs:42-44 | one count succeeds exactly when the tag is registered |
| Stats.ApplyUses | safety-tool/src/stat.rs:35-58 | counting succeeds exactly when every counted tag is registered, and then keeps the tag names, keys and documentation flags |
| Stats.UpdateMetrics | safety-tool/src/stat.rs:32-59 | the metrics update succeeds exactly when every tag of every function is registered; only the functions' own tags are counted, and the spec keeps its shape |
| Stats.ApplyUseCounts | safety-tool/src/stat.rs:42-44 | one count moves the type counter and the predicate counter of its own tag by one and leaves every other counter alone |
| Stats.ApplyUsesCounts | safety-tool/src/stat.rs:35-58 | after counting, each counter has moved by the number of counts aimed at it |
| Stats.BumpedByAdd | safety-tool/src/stat.rs:126 | bumping a counter at most once and then `c` times is the same as bumping it that many times in total |
| Stats.ApplyUsesCons | safety-tool/src/stat.rs:35-58 | counting a non-empty list is counting its first entry and then the rest |
| Stats.CountsCons | safety-tool/src/stat.rs:35-58 | the counts of a non-empty list are the first entry's contribution plus the rest's |
| Stats.MetricsCountUsesLessOne | safety-tool/src/stat.rs:32-59 | starting from a new spec, a counter is missing when its tag was never used that way, and otherwise holds the number of uses less one, because the first use inserts zero |
| StatCollect.CrateTypeOf | safety-tool/src/bin/safety-tool/analyze_hir/stat.rs:31-38 | a crate is a binary exactly when it has an executable type, and a library when it has other types only; with no type at all it panics |
| StatCollect.SpanString | safety-tool/src/bin/safety-tool/analyze_hir/stat.rs:51-62 | the span text is empty exactly when there are no lines, and otherwise holds only digits and colons |
| StatCollect.SpanStringRoundTrip | safety-tool/src/bin/safety-tool/analyze_hir/stat.rs:54-60 | the span text of a non-empty line list reads back as its first and last line |
| StatCollect.PushTag | safety-tool/src/bin/safety-tool/analyze_hir/stat.rs:79-91 | the earlier tags are kept and one tag is appended per parsed tag, in order: an `any` tag becomes a `requires` tag over its groups, any other a single `requires` tag |
| StatCollect.NewFunc | safety-tool/src/bin/safety-tool/analyze_hir/stat.rs:40-65 | a new function record has the given name, path and span text and no tags or unsafe calls |
| StatCollect.CallerTags | safety-tool/src/bin/safety-tool/analyze_hir/stat.rs:70-73 | a caller collects one tag per parsed tag of all its attributes |
| StatCollect.NewCaller | safety-tool/src/bin/safety-tool/analyze_hir/stat.rs:67-76 | a caller record holds the tags of its attributes in order, and no unsafe calls |
| StatCollect.NewCallee | safety-tool/src/bin/safety-tool/analyze_hir/stat.rs:93-97 | a callee record holds exactly the given tags |
| StatCollect.CallerTagsRequire | safety-tool/src/bin/safety-tool/analyze_hir/stat.rs:79-91 | every tag a caller collects is a `requires` tag without documentation, and a single tag is never named `any` |
| Registry.ParseTagType | safety-tool/safety-parser/src/configuration/mod.rs:57-66 | exactly the three lower-case type names are accepted, each read as the type of that name; any other spelling panics |
| Registry.TagTypeRoundTrip | safety-tool/safety-parser/src/configuration/mod.rs:48-66 | every tag type reads back from its lower-case name |
| Registry.Deserialize | safety-tool/safety-parser/src/configuration/mod.rs:37-46 | a tag without `args` gets no arguments, a tag without `types` gets the precondition type only, and every field that is given is kept as written |
| Registry.Merge | safety-tool/safety-parser/src/configuration/mod.rs:84-91 | a documentation flag is set after merging exactly when either side had it set |
| Registry.AddTags | safety-tool/safety-parser/src/configuration/mod.rs:127-135 | adding one document's tags succeeds exactly when none of them repeats a name already loaded or earlier in the document (and none is `any` when `any` is reserved); the names are appended in document order, earlier keys are kept, and each new tag is recorded with the document's path |
| Registry.AddSources | safety-tool/safety-parser/src/configuration/mod.rs:126-137 | loading the documents in order succeeds exactly when all their names are distinct (and free of `any` when reserved); every earlier key is kept, every tag is recorded with its own document's path, and each documentation flag ends up set exactly when the start value or some document sets it |
| Registry.LoadWith | safety-tool/safety-parser/src/configuration/mod.rs:116-142 | a load succeeds exactly when the tag names of all documents are distinct (and free of `any` when reserved); then the registry holds exactly those names, sorted strictly, each with the definition and path of its document, and each documentation flag is set exactly when some document sets it |
| Registry.Load | safety-tool/safety-parser/src/configuration/mod.rs:116-142 | the registry load rejects a repeated name and the reserved name `any`, and accepts everything else |
| Registry.GetTag | safety-tool/safety-parser/src/configuration/mod.rs:144-146 | looking up a registered name gives its definition; an unregistered name panics |
| Registry.GetTagOpt | safety-tool/safety-parser/src/configuration/mod.rs:148-150 | looking up a registered name gives its definition; an unregistered name gives nothing |
| Registry.GetTagAgreesWithOpt | safety-tool/safety-parser/src/configuration/mod.rs:144-150 | the panicking and the optional lookup succeed on the same names and agree on the definition |
| Registry.GetTags | safety-tool/safety-parser/src/configuration/mod.rs:162-164 | the list has one entry per registered name, in key order, each with that name's definition |
| Registry.GetTagsAfterLoad | safety-tool/safety-parser/src/configuration/mod.rs:139-164 | after a load, the listed tags are in strictly increasing name order and are exactly the names the documents define |
| LegacyRegistry.Load | safety-tool/safety-parser/src/configuration.rs:190-213 | the earlier load rejects only a repeated name, and sorts the names strictly |
| LegacyRegistry.CurrentRefinesLegacy | safety-tool/safety-parser/src/configuration.rs:190-213 | the current load accepts exactly what the earlier one accepts without the name `any`, and then builds the same registry |
| LegacyRegistry.SameAccumulation | safety-tool/safety-parser/src/configuration.rs:200-208 | on documents that do not mention `any`, reserving `any` changes nothing about the document loop |
| LegacyRegistry.SameTags | safety-tool/safety-parser/src/configuration.rs:201-206 | on a document that does not mention `any`, reserving `any` changes nothing about adding its tags |
| LegacyRegistry.AnyIsOrdinaryHere | safety-tool/safety-parser/src/configuration.rs:200-206 | a document defining a tag named `any` loads in the earlier registry and is rejected by the current one |
| LegacyRegistry.TomlFilePaths | safety-tool/safety-parser/src/configuration.rs:127-137 | the earlier path search agrees with the current one when a configuration exists, and panics when none exists |
| ConfigEnv.JoinPath | safety-tool/safety-parser/src/configuration/env.rs:69-70 | joining a directory and a name gives a path that ends with the name |
| ConfigEnv.FileName | safety-tool/safety-parser/src/configuration/env.rs:57 | the file name is the part of the path after its last separator and holds no separator |
| ConfigEnv.LastDot | safety-tool/safety-parser/src/configuration/env.rs:57 | the position found holds a dot and no dot follows it; nothing is found exactly when there is no dot |
| ConfigEnv.Extension | safety-tool/safety-parser/src/configuration/env.rs:57 | an extension never contains a dot |
| ConfigEnv.FilterToml | safety-tool/safety-parser/src/configuration/env.rs:55-60 | the kept entries are exactly those whose extension is `toml` |
| ConfigEnv.ListTomlFiles | safety-tool/safety-parser/src/configuration/env.rs:52-62 | listing succeeds exactly for an existing directory, and then gives exactly its entries whose extension is `toml`; a missing directory panics |
| ConfigEnv.CrateSpPaths | safety-tool/safety-parser/src/configuration/env.rs:66-78 | without `CARGO_MANIFEST_DIR` there are no crate-local documents; when the crate's `safety-tags.toml` exists it is the only document |
| ConfigEnv.ConfigExists | safety-tool/safety-parser/src/configuration/env.rs:26-27 | a configuration exists exactly when there are crate-local documents or `SP_FILE` or `SP_DIR` is set |
| ConfigEnv.DisableCheck | safety-tool/safety-parser/src/configuration/env.rs:28 | checking is disabled exactly when `SP_DISABLE_CHECK` is set to anything other than `0` |
| ConfigEnv.Lookup | safety-tool/safety-parser/src/configuration/env.rs:67 | a variable's value is found exactly when it is set |
| ConfigEnv.NeedCheck | safety-tool/safety-parser/src/configuration/env.rs:30-31 | tags are checked exactly when a configuration exists and checking is not disabled |
| ConfigEnv.TomlFilePaths | safety-tool/safety-parser/src/configuration/env.rs:92-103 | a failure to list the crate-local directory is fatal |
| ConfigEnv.TomlFilePathsSound | safety-tool/safety-parser/src/configuration/env.rs:80-103 | every returned path is the crate-local document, the `SP_FILE` value or a `.toml` entry of a directory, and with no configuration the list is empty |
| ConfigEnv.TomlFilePathsPrecedence | safety-tool/safety-parser/src/configuration/env.rs:82-91 | a crate-local `safety-tags.toml` is the only document whatever the variables say, then `SP_FILE` alone, then the `.toml` files of `SP_DIR` |
| SplitAttrs.AttrTokens | safety-tool/safety-parser/src/split_attrs.rs:74-77 | the attribute tokens are empty exactly when there are no attributes, and otherwise start with `#` |
| SplitAttrs.ParseItem | safety-tool/safety-parser/src/split_attrs.rs:22-30 | an item always asks for documentation; the attributes of a function, impl or trait are moved out in front of the rest, and any other item keeps them in the rest |
| SplitAttrs.ParseExpr | safety-tool/safety-parser/src/split_attrs.rs:32-63 | an expression never asks for documentation; the attributes of the listed expression kinds are moved out, and any other expression keeps them in the rest |
| SplitAttrs.SplitAttrsAndRest | safety-tool/safety-parser/src/split_attrs.rs:9-20 | input that is not a statement is passed through whole with no attributes; documentation is asked for exactly when the input is an item; attributes are moved out exactly for the kinds that support it |
| SplitAttrs.SplitKeepsTokens | safety-tool/safety-parser/src/split_attrs.rs:9-20 | the moved attributes followed by the rest give back the input, apart from the `;` of an expression statement |
| SplitAttrs.AttributedFnHasAttrs | safety-tool/safety-parser/src/split_attrs.rs:85-93 | an attributed `unsafe fn` gives back non-empty attributes and asks for documentation |
| SafetyMacro.ProofAttr | safety-tool/safety-macro/src/lib.rs:33-37 | the tool attribute is one `#` followed by one bracket group |
| SafetyMacro.Docs | safety-tool/safety-macro/src/lib.rs:52-56 | documentation is generated only when a configuration exists: without one it is empty, and with one it succeeds exactly when every group's documentation can be generated |
| SafetyMacro.GroupsDoc | safety-tool/safety-macro/src/lib.rs:52-56 | the documentation of the groups succeeds exactly when every group's documentation can be generated, and is empty for no groups |
| SafetyMacro.Safety | safety-tool/safety-macro/src/lib.rs:29-61 | the output always starts with the tool attribute; a non-item is passed through after it; an item expands exactly when the arguments parse and their documentation can be generated, and then its attributes come first, then the documentation, then the rest |
| SafetyMacro.NonItemUnchanged | safety-tool/safety-macro/src/lib.rs:39-45 | an expression or statement comes out as the tool attribute followed by its own tokens, whatever the arguments are |
| SafetyMacro.ItemWithoutConfig | safety-tool/safety-macro/src/lib.rs:47-60 | without a configuration an item only gains the tool attribute; its own tokens follow unchanged |
| SafetyMacro.ItemNeedsGroups | safety-tool/safety-macro/src/lib.rs:50 | an item whose macro arguments do not parse aborts the expansion with the parse error |
| Tokens.SplitTerminated | safety-tool/safety-parser/src/safety/mod.rs:56 | the parsed runs are non-empty and free of the separator, and empty input parses as no runs |
| Tokens.SplitTerminatedRoundTrip | safety-tool/safety-parser/src/safety/mod.rs:56 | joining the parsed runs with the separator gives back the input, up to one trailing separator |
| Tokens.SplitTerminatedJoin | safety-tool/safety-parser/src/safety/mod.rs:85 | non-empty runs free of the separator, joined with it, parse back into the same runs |
| SynExpr.ExprIdentOpt | demo/safety-parser/src/property_attr/mod.rs:238-241 | an identifier is found exactly for a single-segment path, and the path is that identifier |
| SynExpr.IdentToString | demo/safety-parser/src/property_attr/mod.rs:243-246 | the printed text of an identifier path is the identifier itself |
| FlatState.Reset | safety-tool/src/analyze_hir/db/data.rs:114-115 | after a reset the keys are the callee's names with repeats collapsed to their first position, each listed once and all pending |
| FlatState.PendingExact | safety-tool/src/analyze_hir/visit.rs:97-106 | the names listed as undischarged are exactly the keys whose flag is false |
| FlatState.ResetPending | safety-tool/src/analyze_hir/db/data.rs:112-117 | right after a reset every name is pending, in first-occurrence order |
| FlatState.Collect | safety-tool/src/analyze_hir/db/data.rs:92-105 | the table is built exactly when every function with tool attributes has readable attributes; otherwise the error is that of the first such function that fails; its keys are exactly those functions, and a later function with the same key replaces an earlier one |
| FlatState.EarlierFailureReported | safety-tool/src/analyze_hir/db/data.rs:92-105 | when two tagged functions both fail, the first one's error is reported |
| FlatState.GetTagsViaKey | safety-tool/src/analyze_hir/db/data.rs:112-117 | a callee without tool attributes has no state; otherwise the state holds its names, each once and all pending |
| FlatState.Title | safety-tool/src/analyze_hir/visit.rs:107-111 | the title starts with a quoted name, ends in "not discharged", and says "is" exactly when one name is pending |
| FlatState.TitleTicks | safety-tool/src/analyze_hir/visit.rs:98-106 | with names free of backquotes, the title quotes exactly as many names as are pending |
| FlatState.MemoName | safety-tool/src/analyze_hir/db/data.rs:161-163 | a `Memo` property is recorded under its first argument when that is a plain identifier; without arguments it panics on the index, and with another first argument it panics in the identifier read |
| FlatState.NamesOf | safety-tool/src/analyze_hir/db/data.rs:138-146 | the names of a node are read exactly when every tool attribute can be read; the first failing attribute's panic is the result; there is at most one name per attribute, and none exactly when no attribute records one |
| FlatState.MarkKnown | safety-tool/src/analyze_hir/visit.rs:47-49 | discharging a name the callee has fails exactly when it is already discharged; otherwise only that name's flag is set |
| FlatDiagnostic.NewInvalidTag | safety-tool/src/analyze_hir/diagnostic.rs:16-18 | the diagnostic keeps the rendered text and is of the invalid-tag kind |
| FlatDiagnostic.NewMissingDischarges | safety-tool/src/analyze_hir/diagnostic.rs:20-22 | the diagnostic keeps the rendered text and is of the missing-discharges kind |
| FlatTracker.DischargesAll | safety-tool/src/analyze_hir/db/data.rs:156-158 | all properties are checked exactly when `DISCHARGES_ALL_PROPERTIES` is set to anything but `0` |
| FlatTracker.PushProperty | safety-tool/src/analyze_hir/db/data.rs:153-173 | an attribute that does not parse panics and one that is not a property records nothing; a `Memo` property records its identifier or panics reading it; any other property records its name only when the flag is on |
| FlatTracker.MemoAttrRecorded | safety-tool/src/analyze_hir/db/data.rs:160-163 | the discharge attribute of a `Memo` property with an identifier argument records that identifier, whatever the flag |
| FlatTracker.OtherKindNeedsFlag | safety-tool/src/analyze_hir/db/data.rs:164-168 | the discharge attribute of any other property records its name exactly when the flag is on |
| FlatTracker.SameAsDemoWithoutFlag | safety-tool/src/analyze_hir/db/data.rs:153-173 | with the flag off, an attribute records the same as in the prototype checker |
| FlatTracker.NewToolAttrs | safety-tool/src/analyze_hir/db/data.rs:92-105 | the table has exactly the functions with tool attributes as keys, even those recording no tag, and is built exactly when all their attributes can be read |
| FlatTracker.DischargeAll | safety-tool/src/analyze_hir/visit.rs:46-59 | discharging a node's tags succeeds exactly when no tag the callee has is discharged already or named twice; then exactly the flags of the named tags are set, names the callee lacks being ignored, and the keys are unchanged; a failure is the `assert!` |
| FlatTracker.UnknownTagsIgnored | safety-tool/src/analyze_hir/visit.rs:50-58 | tags the callee does not have change nothing |
| FlatTracker.SameAsDemoWhenKnown | safety-tool/src/analyze_hir/visit.rs:46-59 | when the callee has every tag named, this revision and the prototype discharge alike |
| FlatTracker.Missing | safety-tool/src/analyze_hir/visit.rs:107-116 | the diagnostic is of the missing-discharges kind, titled with the pending names, and annotates the node within the body |
| FlatTracker.CheckTagState | safety-tool/src/analyze_hir/visit.rs:90-118 | one diagnostic is added exactly when some tag is pending, and it lists the pending tags at the node |
| FlatTracker.Check | safety-tool/src/analyze_hir/visit.rs:41-66 | a node without tags changes nothing and answers that it was empty; otherwise the node's tags are discharged, keeping the keys, and at most one diagnostic is added |
| FlatTracker.Walk | safety-tool/src/analyze_hir/visit.rs:74-83 | the walk keeps the keys and adds at most one diagnostic |
| FlatTracker.CheckToolAttrs | safety-tool/src/analyze_hir/visit.rs:27-87 | a callee without tool attributes is skipped; otherwise the state holds the callee's names, at most three diagnostics are added, and a call that leaves a tag pending always ends with a diagnostic at the call node listing it |
| FlatTracker.CheckCalls | safety-tool/src/analyze_hir/visit.rs:27-87 | checking the calls keeps earlier diagnostics and adds at most three per call |
| FlatTracker.WalkUntagged | safety-tool/src/analyze_hir/visit.rs:74-83 | enclosing nodes without tags leave the state and the diagnostics unchanged |
| FlatTracker.UntaggedScopeReportsAll | safety-tool/src/analyze_hir/visit.rs:27-87 | a call of a tagged function in a scope with no tags gets exactly one diagnostic at the call, listing every tag of the callee |
| FlatTracker.CompleteDischargeSilent | safety-tool/src/analyze_hir/visit.rs:41-87 | a call node naming each tag of its callee once, with no tags on the enclosing nodes, passes without a diagnostic |
| FlatTracker.DoubleReport | safety-tool/src/analyze_hir/visit.rs:74-86 | as written, an enclosing node that discharges only some tags is reported, and the last check at the call node reports the same tags again |
| FlatTracker.WalkStopsAtTagged | safety-tool/src/analyze_hir/visit.rs:74-83 | an enclosing node with tags ends the walk after discharging them and reporting on the state |
| FlatTracker.TaggedCallWalksOn | safety-tool/src/analyze_hir/visit.rs:67-83 | as written, when the call node and its enclosing node both name the callee's one tag, the check fails the already-discharged `assert!`, because the call node's answer is dropped |
| FlatTracker.FirstTags | safety-tool/src/analyze_hir/visit.rs:74-83 | the tags found are those of some node, and no node with tags means no tags |
| FlatTracker.CheckToolAttrsOnce | safety-tool/src/analyze_hir/visit.rs:27-87 | with the call node's answer honoured, at most one diagnostic is added, exactly when a tag is left pending, and it lists the pending tags at the call |
| FlatTracker.OnceStopsAtTaggedCall | safety-tool/src/analyze_hir/visit.rs:61-83 | with the call node's answer honoured, a call node naming distinct tags always passes, and without a diagnostic when it names every tag of the callee |
| FlatTracker.WalkFirstTags | safety-tool/src/analyze_hir/visit.rs:74-83 | the walk fails exactly when the first node with tags cannot be read or discharged, and otherwise ends in the state that discharging that node's tags gives |
| FlatTracker.OnceSameState | safety-tool/src/analyze_hir/visit.rs:67-86 | for an untagged call node, the check as written and the corrected one fail alike and end in the same state |
| DemoTracker.PushProperty | demo/src/analyze_hir/db/data.rs:124-131 | an attribute that does not parse panics; only a `Memo` property records a name, its identifier, or panics reading it; anything else records nothing |
| DemoTracker.MemoAttrRecorded | demo/src/analyze_hir/db/data.rs:124-131 | the discharge attribute of a `Memo` property with an identifier argument records that identifier |
| DemoTracker.OtherKindIgnored | demo/src/analyze_hir/db/data.rs:124-131 | the discharge attribute of any other property records nothing |
| DemoTracker.NewToolAttrs | demo/src/analyze_hir/db/data.rs:74-87 | the table has exactly the functions with tool attributes as keys and is built exactly when all their attributes can be read |
| DemoTracker.DischargeAll | demo/src/analyze_hir/visit.rs:43-49 | discharging succeeds exactly when the callee has every named tag and none is discharged already or named twice; then exactly the named flags are set and the keys are unchanged |
| DemoTracker.CheckTagState | demo/src/analyze_hir/visit.rs:75-100 | the check passes exactly when every tag is discharged; otherwise the compiler aborts with the report listing the pending tags at the node |
| DemoTracker.Check | demo/src/analyze_hir/visit.rs:38-56 | a node without tags changes nothing and answers that it was empty; a node with tags that passes leaves every tag discharged, and the keys are kept |
| DemoTracker.Walk | demo/src/analyze_hir/visit.rs:59-68 | the walk keeps the keys |
| DemoTracker.CheckToolAttrs | demo/src/analyze_hir/visit.rs:25-72 | a callee without tool attributes is skipped; a check that returns leaves every tag of the callee discharged |
| DemoTracker.CheckCalls | demo/src/analyze_hir/visit.rs:25-72 | the calls pass exactly when every call passes on its own |
| DemoTracker.WalkUntagged | demo/src/analyze_hir/visit.rs:59-68 | enclosing nodes without tags leave the state unchanged |
| DemoTracker.UntaggedScopeAborts | demo/src/analyze_hir/visit.rs:25-100 | a call of a tagged function in a scope with no tags aborts with the report of every tag of the callee at the call |
| DemoTracker.DischargeCovers | demo/src/analyze_hir/visit.rs:43-49 | naming each tag of the callee once, and nothing else, discharges every tag |
| DemoTracker.DoneRejects | demo/src/analyze_hir/visit.rs:43-49 | once every tag is discharged, naming any tag panics |
| DemoTracker.CompleteDischargePasses | demo/src/analyze_hir/visit.rs:25-72 | a call node naming each tag of its callee once, with no tags on the enclosing nodes, passes the check |
| DemoTracker.TaggedCallThenTaggedParentPanics | demo/src/analyze_hir/visit.rs:57-68 | because the call node's answer is dropped, a tagged call node inside a tagged enclosing node always fails |
| DemoProperty.KindNew | demo/safety-parser/src/property_attr/property.rs:131-144 | a kind is read exactly from one of its four token strings, and the kind read prints back as that string; any other string panics |
| DemoProperty.KindRoundTrip | demo/safety-parser/src/property_attr/property.rs:119-144 | every kind printed as its token reads back as itself |
| DemoProperty.NameIndex | demo/safety-parser/src/property_attr/property.rs:146-175 | the derived ordering position of a name is its place in the declaration list of all names |
| DemoProperty.New | demo/safety-parser/src/property_attr/property.rs:178-207 | any name other than `Unknown` that a string reads as prints back as that string |
| DemoProperty.NameRoundTrip | demo/safety-parser/src/property_attr/property.rs:351-380 | every name, `Unknown` included, printed with `to_str` reads back as itself |
| DemoProperty.NewRecognises | demo/safety-parser/src/property_attr/property.rs:178-207 | a string reads as a known name exactly when it is the printed text of some known name |
| DemoProperty.ArgsLenFixed | demo/safety-parser/src/property_attr/property.rs:320-347 | the argument count the sentences need equals `args_len` for every name except `Allocated`, which needs one more |
| DemoProperty.Render | demo/safety-parser/src/property_attr/mod.rs:243-246 | every argument is rendered to text, one string per argument, in order |
| DemoProperty.DocSentenceAsWritten | demo/safety-parser/src/property_attr/property.rs:219-233 | fewer arguments than `args_len` panic with the length message; for every name but `Allocated` enough arguments give the name's sentence over the first arguments |
| DemoProperty.AllocatedGuardGap | demo/safety-parser/src/property_attr/property.rs:221-233 | three arguments pass the guard for `Allocated`, and the sentence then indexes a fourth one past the end |
| DemoProperty.DocSentence | demo/safety-parser/src/property_attr/property.rs:219-318 | with the guard the sentences need, the sentence is produced exactly when enough arguments are given and fails only with the length message |
| DemoProperty.DocSentenceIgnoresExtra | demo/safety-parser/src/property_attr/property.rs:219-318 | arguments past the ones a sentence reads do not change it |
| DemoProperty.DocSentenceAgrees | demo/safety-parser/src/property_attr/property.rs:219-233 | the corrected guard and the guard as written give the same result for every name but `Allocated` |
| DemoProperty.NewProperty | demo/safety-parser/src/property_attr/property.rs:42-52 | the property keeps kind, name and arguments; it has a memo exactly when a memo argument is present, and then it is the first one |
| DemoProperty.ExprIdent | demo/safety-parser/src/property_attr/mod.rs:230-241 | an identifier is read exactly from a single-segment path, which is that identifier; anything else panics |
| DemoProperty.FromCall | demo/safety-parser/src/property_attr/property.rs:54-61 | a call whose function is an identifier is read as a `Memo` property of that name with the call's arguments and no memo; anything else panics |
| DemoProperty.PropertyCall | demo/safety-parser/src/property_attr/property.rs:63-70 | the printed call carries the property's arguments and is read back by `from_call` as the same name and arguments |
| DemoProperty.DischargeAttr | demo/safety-parser/src/property_attr/property.rs:72-81 | the discharge attribute has the property and kind arguments, plus a memo argument exactly when the property has a memo |
| DemoProperty.Cmp | demo/safety-parser/src/property_attr/property.rs:26-38 | properties compare equal exactly when kind and name agree; otherwise the kind decides first and the name second, by declaration order |
| DemoProperty.CmpIsOrder | demo/safety-parser/src/property_attr/property.rs:20-38 | the ordering is antisymmetric and transitive |
| DemoProperty.Framed | demo/safety-parser/src/property_attr/property.rs:87-101 | a generated line exists exactly when the sentence does, and starts with the name and lead-in and ends with the closing |
| DemoProperty.MemoDoc | demo/safety-parser/src/property_attr/property.rs:86 | the placeholder line of a `Memo` property exists exactly when its first argument is an identifier, and names that identifier |
| DemoProperty.AutoDoc | demo/safety-parser/src/property_attr/property.rs:84-102 | the first doc line is the placeholder for `Memo` and otherwise the name's sentence framed by the kind's wording, produced exactly when enough arguments are given |
| DemoProperty.DocComments | demo/safety-parser/src/property_attr/property.rs:83-108 | the doc lines are the generated first line followed by exactly the memo's doc lines, and fail exactly when the first line does |
| DemoNamedArgs.NamedArgNew | demo/safety-parser/src/property_attr/mod.rs:73-95 | `memo` and `kind` with a string literal become memo and kind arguments, `property` becomes the call read as a `Memo` property without memo exactly when the call reads, and every other name or non-string value panics |
| DemoNamedArgs.Assignments | demo/safety-parser/src/property_attr/mod.rs:215-224 | every argument is either an assignment or positional, and none is both or lost |
| DemoNamedArgs.ParseNamedArgs | demo/safety-parser/src/property_attr/mod.rs:210-225 | a successful reading sorts every argument into exactly one of the named and the positional lists |
| DemoNamedArgs.ParseNamedArgsSpec | demo/safety-parser/src/property_attr/mod.rs:210-225 | reading succeeds exactly when every assignment reads; then the named arguments are the assignments read one for one, in order, and the positional ones are the other expressions, in order |
| DemoNamedArgs.ParseNamedArgsAppend | demo/safety-parser/src/property_attr/mod.rs:210-225 | reading two argument lists in a row gives both readings concatenated |
| DemoNamedArgs.ParseNamedArgsCons | demo/safety-parser/src/property_attr/mod.rs:215-221 | an assignment in front of a list adds its named argument in front of the list's |
| DemoNamedArgs.ParseInnerAttr | demo/safety-parser/src/property_attr/mod.rs:106-134 | no attribute gives nothing and two attributes panic; a property read is the first property argument with the kind of the first kind argument and the first memo |
| DemoNamedArgs.FromCallIsMemo | demo/safety-parser/src/property_attr/mod.rs:119-124 | the property found among read arguments still has kind `Memo` and no memo, so the kind and memo of the result come from their own arguments |
| DemoNamedArgs.DischargeAttrRoundTrip | demo/safety-parser/src/property_attr/property.rs:72-81 | the discharge attribute generated for a property reads back as exactly that property |
| DemoNamedArgs.ParseInnerAttrFromTokens | demo/safety-parser/src/property_attr/mod.rs:136-155 | the first expression must be a call named `Memo`; the property read has kind `Memo`, the name `Unknown`, the call's positional arguments and its first memo |
| DemoNamedArgs.CmpStr | demo/safety-parser/src/property_attr/mod.rs:63 | strings compare equal exactly when equal and less exactly in lexicographic order |
| DemoNamedArgs.CmpNamed | demo/safety-parser/src/property_attr/mod.rs:63-71 | named arguments order by variant first, then by their property, kind or memo |
| DemoNamedArgs.LeTotal | demo/safety-parser/src/property_attr/mod.rs:63-71 | any two named arguments are ordered one way or the other |
| DemoNamedArgs.LeTransitive | demo/safety-parser/src/property_attr/mod.rs:63-71 | the order on named arguments is transitive |
| DemoNamedArgs.InsertNamed | demo/safety-parser/src/property_attr/mod.rs:183 | inserting into a sorted list keeps it sorted and adds exactly the one argument |
| DemoNamedArgs.SortNamed | demo/safety-parser/src/property_attr/mod.rs:183 | the sorted list is ordered and a permutation of the input |
| DemoNamedArgs.SortStable | demo/safety-parser/src/property_attr/mod.rs:183 | the sort is stable: arguments that compare equal, such as two properties differing only in their expression, keep their input order |
| DemoNamedArgs.SortedAll | demo/safety-parser/src/property_attr/mod.rs:183 | in a sorted list every argument is at most every later one |
| DemoNamedArgs.NewKindAndProperty | demo/safety-parser/src/property_attr/mod.rs:170-185 | building succeeds exactly when the arguments read; the result is sorted and holds exactly the named arguments plus the property built from the kind, the name, the positional arguments and the first memo |
| DemoNamedArgs.GenerateToolAttr | demo/safety-parser/src/property_attr/mod.rs:191-207 | every generated argument is an assignment to an identifier, at most two per named argument |
| DemoNamedArgs.ChunkReadsBack | demo/safety-parser/src/property_attr/mod.rs:193-202 | the arguments generated for one named argument read back without positional leftovers |
| DemoNamedArgs.GenerateReadsBack | demo/safety-parser/src/property_attr/mod.rs:191-207 | the whole generated attribute reads back, each chunk in order, with nothing positional |
| DemoNamedArgs.OneFinds | demo/safety-parser/src/property_attr/mod.rs:193-202 | a read-back chunk offers the memo of a memo argument and the property and kind of a property argument, and nothing else |
| DemoNamedArgs.ReadBackFinds | demo/safety-parser/src/property_attr/mod.rs:119-131 | the first memo of the read-back arguments is the list's first memo, and the first property and kind read back are the list's first property, split into name and kind |
| DemoNamedArgs.GenerateRoundTrip | demo/safety-parser/src/property_attr/mod.rs:191-207 | the generated tool attribute reads back as the list's first property with its kind and the list's first memo, and panics when the list has no property |
| DocMemo.Memo | demo/safety-parser/src/property_attr/utils.rs:7-15 | one doc line per line of the trimmed memo, each led by one space and carrying no leading or trailing whitespace after it |
| DocMemo.SplitCount | demo/safety-parser/src/property_attr/utils.rs:9 | splitting at a character gives one piece more than it occurs |
| DocMemo.SplitLastNonEmpty | demo/safety-parser/src/property_attr/utils.rs:8-9 | a text not ending in the separator has a non-empty last line, so trimming leaves no spurious empty line at the end |
| DocMemo.MemoBlank | demo/rustc_driver/safety-tool-parser/src/precond/utils.rs:7-9 | a memo produces no doc line exactly when it is all whitespace |
| DocMemo.MemoLineCount | demo/rustc_driver/safety-tool-parser/src/precond/utils.rs:7-15 | a memo that is not blank produces one doc line more than its trimmed text has line breaks |
| DocMemo.MemoWord | demo/safety-parser/src/property_attr/utils.rs:4-15 | a single word becomes the one doc line made of a space and the word |
| DocMemo.FindSome | demo/safety-parser/src/property_attr/utils.rs:21-23 | nothing is found exactly when no element gives a value; otherwise the value found is the one the first such element gives |
| DocMemo.FindSomeAppend | demo/safety-parser/src/property_attr/utils.rs:21-23 | searching a concatenation finds what the first part has, and searches the second part only when the first has nothing |
| DocMemo.Find | demo/safety-parser/src/property_attr/utils.rs:17-19 | the fallback is returned when no element gives a value, and otherwise the value of the first element that gives one |
| DriverProperty.KindNewAsWritten | demo/rustc_driver/safety-tool-parser/src/property_attr/property.rs:79-92 | the four token strings are accepted and anything else panics, but no string ever reads as `Memo` |
| DriverProperty.MemoReadsAsOption | demo/rustc_driver/safety-tool-parser/src/property_attr/property.rs:67-92 | the token printed for `Memo` reads back as `Option`, a different kind |
| DriverProperty.KindNew | demo/rustc_driver/safety-tool-parser/src/property_attr/property.rs:79-92 | with the `memo` arm reading `Memo`, a kind is read exactly from the four token strings and prints back as the string read |
| DriverProperty.KindRoundTrip | demo/rustc_driver/safety-tool-parser/src/property_attr/property.rs:67-92 | with the `memo` arm corrected, every kind printed as its token reads back as itself |
| DriverProperty.KindNewAgrees | demo/rustc_driver/safety-tool-parser/src/property_attr/property.rs:79-92 | the corrected and the written reading agree on every string except `"memo"` |
| DriverProperty.New | demo/rustc_driver/safety-tool-parser/src/property_attr/property.rs:121-147 | any name other than `Unknown` that a string reads as prints back as that string |
| DriverProperty.NameRoundTrip | demo/rustc_driver/safety-tool-parser/src/property_attr/property.rs:121-184 | every name printed with `to_str` reads back as itself |
| DriverProperty.NewRecognises | demo/rustc_driver/safety-tool-parser/src/property_attr/property.rs:121-147 | a string reads as a known name exactly when it is the printed text of some known name |
| DriverProperty.ExprIdent | demo/rustc_driver/safety-tool-parser/src/property_attr/mod.rs:251-257 | an identifier is read exactly from a single-segment path, which is that identifier; anything else panics |
| DriverProperty.TryFromExprIdent | demo/rustc_driver/safety-tool-parser/src/property_attr/property.rs:149-152 | an identifier expression gives the name it reads as, and any other expression gives nothing |
| DriverProperty.FromExprIdent | demo/rustc_driver/safety-tool-parser/src/property_attr/property.rs:154-157 | an identifier expression gives the same name `try_from_expr_ident` gives, and any other expression panics |
| DriverProperty.FromComponents | demo/rustc_driver/safety-tool-parser/src/property_attr/property.rs:39-56 | the property keeps kind and name, has no memo, and its expression is a call with exactly the given arguments |
| DriverProperty.FromComponentsNamesItself | demo/rustc_driver/safety-tool-parser/src/property_attr/property.rs:39-56 | the built call is not a bare identifier, and its function reads back as the property's name |
| DriverProperty.Cmp | demo/rustc_driver/safety-tool-parser/src/property_attr/property.rs:23-36 | properties compare equal exactly when kind and name agree; otherwise the kind decides first and the name second, by declaration order |
| DriverProperty.CmpIsOrder | demo/rustc_driver/safety-tool-parser/src/property_attr/property.rs:17-36 | the ordering is antisymmetric and transitive |
| DriverProperty.CmpIgnoresExpr | demo/rustc_driver/safety-tool-parser/src/property_attr/property.rs:33-34 | two properties differing only in their expression are unequal yet compare equal |
| NamedArgSet.Insert | demo/rustc_driver/safety-tool-parser/src/property_attr/mod.rs:243 | inserting keeps a duplicate-free list duplicate-free, keeps every earlier element in place and adds at most the one value |
| NamedArgSet.ReadAssign | demo/rustc_driver/safety-tool-parser/src/property_attr/mod.rs:240-243 | an assignment whose left side is an identifier is read with that identifier and its right side; any other left side panics |
| NamedArgSet.ParseNamedArgsSpec | demo/rustc_driver/safety-tool-parser/src/property_attr/mod.rs:233-249 | reading succeeds exactly when every assignment reads and no value read repeats an earlier one; then the set is the values read in order, and the positional arguments the other expressions in order |
| NamedArgSet.NamedOfFrom | demo/rustc_driver/safety-tool-parser/src/property_attr/mod.rs:238-245 | every value in the set comes from reading one of the assignments |
| NamedArgSet.PositionalPrefix | demo/rustc_driver/safety-tool-parser/src/property_attr/mod.rs:246 | arguments that are not assignments are only collected as positional, whatever follows them |
| DriverNamedArgs.NamedArgNewAsWritten | demo/rustc_driver/safety-tool-parser/src/property_attr/mod.rs:70-87 | a string `memo` or `kind` is accepted and anything else panics, and both become a memo argument |
| DriverNamedArgs.KindReadAsMemo | demo/rustc_driver/safety-tool-parser/src/property_attr/mod.rs:79-84 | `kind = "v"` reads exactly as `memo = "v"` does and never as a kind argument |
| DriverNamedArgs.NamedArgNew | demo/rustc_driver/safety-tool-parser/src/property_attr/mod.rs:70-87 | with the `kind` arm producing a kind argument, a string `memo` or `kind` is accepted and anything else panics, and the argument read writes back as the assignment it came from |
| DriverNamedArgs.NamedArgRoundTrip | demo/rustc_driver/safety-tool-parser/src/property_attr/mod.rs:70-87 | every kind and memo argument written as an assignment reads back as itself |
| DriverNamedArgs.NamedArgNewAgrees | demo/rustc_driver/safety-tool-parser/src/property_attr/mod.rs:70-87 | the corrected and the written reading agree on every name except `kind` |
| DriverNamedArgs.ReadNeverProperty | demo/rustc_driver/safety-tool-parser/src/property_attr/mod.rs:70-87 | under either reading of `kind`, an assignment never reads as a property |
| DriverNamedArgs.NamedOf | demo/rustc_driver/safety-tool-parser/src/property_attr/mod.rs:233-249 | the assignments read under the given `kind` reading: no more than the arguments, and none of them a property |
| DriverNamedArgs.ParseNamedArgs | demo/rustc_driver/safety-tool-parser/src/property_attr/mod.rs:233-249 | under either reading of `kind`, reading succeeds exactly when every assignment is a string `memo` or `kind` and no value is read twice; it then yields the values read and the other arguments, each in order |
| DriverNamedArgs.KindThenMemo | demo/rustc_driver/safety-tool-parser/src/property_attr/mod.rs:79-83 | as written, `kind = "v", memo = "v"` reads the memo `v` twice and panics on the duplicate; with the `kind` arm corrected it reads as a kind and a memo |
| DriverNamedArgs.PositionalKind | demo/rustc_driver/safety-tool-parser/src/property_attr/mod.rs:181-200 | the given kind wins; else the first kind argument decides, accepted only for `precond`, `hazard` and `option`; with neither, a property already present or the lack of a kind panics |
| DriverNamedArgs.PositionalKindIsKindNew | demo/rustc_driver/safety-tool-parser/src/property_attr/mod.rs:183-193 | the kind read from a kind argument is the one `Kind::new` reads from the same token |
| DriverNamedArgs.PositionalName | demo/rustc_driver/safety-tool-parser/src/property_attr/mod.rs:202-211 | an identifier names the property itself; otherwise it must be a call, named by its function, and anything else panics |
| DriverNamedArgs.PositionalNameOfComponents | demo/rustc_driver/safety-tool-parser/src/property_attr/mod.rs:202-211 | a property built from its components is read back under its own name |
| DriverNamedArgs.ParsePositional | demo/rustc_driver/safety-tool-parser/src/property_attr/mod.rs:173-231 | no positional argument leaves the set alone; the first becomes the property with the resolved kind and name; a second must be a string memo while no memo is present; the set keeps its elements in front and stays duplicate-free |
| DriverNamedArgs.MemoAfterProperty | demo/rustc_driver/safety-tool-parser/src/property_attr/mod.rs:213-219 | inserting the property does not change which memo the second argument's check finds |
| DriverNamedArgs.ParsePositionalIgnoresRest | demo/rustc_driver/safety-tool-parser/src/property_attr/mod.rs:228 | positional arguments past the second are ignored |
| DriverNamedArgs.CmpNamed | demo/rustc_driver/safety-tool-parser/src/property_attr/mod.rs:63-68 | named arguments order by variant first, then by their property, kind or memo |
| DriverNamedArgs.LeTotal | demo/rustc_driver/safety-tool-parser/src/property_attr/mod.rs:63-68 | any two named arguments are ordered one way or the other |
| DriverNamedArgs.LeTransitive | demo/rustc_driver/safety-tool-parser/src/property_attr/mod.rs:63-68 | the order on named arguments is transitive |
| DriverNamedArgs.InsertNamed | demo/rustc_driver/safety-tool-parser/src/property_attr/mod.rs:121 | inserting into a sorted list keeps it sorted and adds exactly the one argument |
| DriverNamedArgs.SortNamed | demo/rustc_driver/safety-tool-parser/src/property_attr/mod.rs:121 | the sorted list is ordered and a permutation of the input |
| DriverNamedArgs.SortStable | demo/rustc_driver/safety-tool-parser/src/property_attr/mod.rs:121 | the sort is stable: arguments that compare equal, such as two properties differing only in their expression, keep their input order |
| DriverNamedArgs.SortedAll | demo/rustc_driver/safety-tool-parser/src/property_attr/mod.rs:121 | in a sorted list every argument is at most every later one |
| DriverNamedArgs.SortedPropertyFirst | demo/rustc_driver/safety-tool-parser/src/property_attr/mod.rs:147 | in a sorted list whose only property is `p`, `p` comes first |
| DriverNamedArgs.NewWithKind | demo/rustc_driver/safety-tool-parser/src/property_attr/mod.rs:109-123 | under either reading of `kind`, building succeeds exactly when the named arguments read and the positional ones then read with the given kind; the set is sorted |
| DriverNamedArgs.NewWithKindContents | demo/rustc_driver/safety-tool-parser/src/property_attr/mod.rs:109-123 | under either reading of `kind`, the set holds every named argument, the property of the first positional argument with the given kind, and the memo of a second positional argument, which is then the only memo; and it holds nothing else |
| DriverNamedArgs.PositionalOnly | demo/rustc_driver/safety-tool-parser/src/property_attr/mod.rs:173-231 | the positional reading adds nothing but the property of the first positional argument and the memo of the second |
| DriverNamedArgs.NewKindAndProperty | demo/rustc_driver/safety-tool-parser/src/property_attr/mod.rs:130-149 | under either reading of `kind`, building succeeds exactly when the named arguments read, and otherwise fails with the reading's panic; the set then holds them plus the property built from kind, name and positional arguments, is sorted and starts with the property, so the duplicate check never fires |
| DriverNamedArgs.GenerateToolAttr | demo/rustc_driver/safety-tool-parser/src/property_attr/mod.rs:155-170 | every generated argument is an assignment to an identifier, at most two per named argument |
| DriverNamedArgs.ToolAttrEmptyIffKinds | demo/rustc_driver/safety-tool-parser/src/property_attr/mod.rs:155-170 | the tool attribute carries no argument exactly when every named argument is a kind argument |
| DriverNamedArgs.GenerateDocComments | demo/rustc_driver/safety-tool-parser/src/property_attr/mod.rs:88-95 | a set without a memo generates no doc lines |
| DriverNamedArgs.MemosInAppend | demo/rustc_driver/safety-tool-parser/src/property_attr/mod.rs:155-170 | the memos of two argument lists in a row are the memos of each, in order |
| DriverNamedArgs.DocsMatchToolAttr | demo/rustc_driver/safety-tool-parser/src/property_attr/mod.rs:151-170 | the doc comments are the doc lines of exactly the memos the generated tool attribute carries |
| PrecondProperty.KindToken | demo/rustc_driver/safety-tool-parser/src/precond/property.rs:19-28 | every kind is written as one of the three token strings |
| PrecondProperty.KindTokensDistinct | demo/rustc_driver/safety-tool-parser/src/precond/property.rs:19-28 | two kinds are written the same exactly when they are the same kind |
| PrecondProperty.New | demo/rustc_driver/safety-tool-parser/src/precond/property.rs:58-83 | any name other than `Unknown` that a string reads as prints back as that string |
| PrecondProperty.NameRoundTrip | demo/rustc_driver/safety-tool-parser/src/precond/property.rs:58-120 | every name, the misspelt ones included, printed with `to_str` reads back as itself |
| PrecondProperty.NewRecognises | demo/rustc_driver/safety-tool-parser/src/precond/property.rs:58-83 | a string reads as a known name exactly when it is the printed text of some known name |
| PrecondProperty.UsualSpellingsUnknown | demo/rustc_driver/safety-tool-parser/src/precond/property.rs:73-80 | `Owning` and `Unreachable`, as the other parsers spell them, read as `Unknown` here, because the names are declared misspelt |
| PrecondArgs.NamedArgNewAsWritten | demo/rustc_driver/safety-tool-parser/src/precond/mod.rs:69-86 | a string `memo` or `kind` is accepted and anything else panics, and both become a memo argument |
| PrecondArgs.KindReadAsMemo | demo/rustc_driver/safety-tool-parser/src/precond/mod.rs:78-83 | `kind = "v"` reads exactly as `memo = "v"` does and never as a kind argument |
| PrecondArgs.NamedArgNew | demo/rustc_driver/safety-tool-parser/src/precond/mod.rs:69-86 | with the `kind` arm producing a kind argument, a string `memo` or `kind` is accepted and anything else panics, and the argument read writes back as the assignment it came from |
| PrecondArgs.NamedArgRoundTrip | demo/rustc_driver/safety-tool-parser/src/precond/mod.rs:69-86 | every kind and memo argument written as an assignment reads back as itself |
| PrecondArgs.ParseNamedArgsAsWritten | demo/rustc_driver/safety-tool-parser/src/precond/mod.rs:180-199 | as written, a successful reading never adds to the set, and a list without assignments always reads |
| PrecondArgs.EveryNamedArgPanics | demo/rustc_driver/safety-tool-parser/src/precond/mod.rs:180-199 | as written, reading from an empty set succeeds exactly when no argument is an assignment, because the assertion rejects every argument inserted for the first time |
| PrecondArgs.MemoArgumentRefused | demo/rustc_driver/safety-tool-parser/src/precond/mod.rs:187-194 | as written, the single argument `memo = "reason"` panics |
| PrecondArgs.ParseNamedArgsSpec | demo/rustc_driver/safety-tool-parser/src/precond/mod.rs:180-199 | with the assertion reversed, reading succeeds exactly when every assignment is a string `memo` or `kind` and none repeats; then it yields them and the other arguments, each in order, and none is a property |
| PrecondArgs.MemoArgumentRead | demo/rustc_driver/safety-tool-parser/src/precond/mod.rs:187-194 | with the assertion reversed, `memo = "reason"` reads as the one memo argument |
| PrecondArgs.PositionalKind | demo/rustc_driver/safety-tool-parser/src/precond/mod.rs:140-159 | the given kind wins; else the first kind argument decides, accepted only for `precond`, `hazard` and `option`; with neither, a property already present or the lack of a kind panics |
| PrecondArgs.KindArgRoundTrip | demo/rustc_driver/safety-tool-parser/src/precond/mod.rs:140-152 | a kind argument holding a kind's token gives back that kind |
| PrecondArgs.ParsePositional | demo/rustc_driver/safety-tool-parser/src/precond/mod.rs:132-178 | no positional argument leaves the set alone; the first becomes the property with the resolved kind, appended; a second must be a string memo while no memo is present, appended after it |
| PrecondArgs.MemoAfterProperty | demo/rustc_driver/safety-tool-parser/src/precond/mod.rs:160-166 | inserting the property does not change which memo the second argument's check finds, and adds no memo |
| PrecondArgs.New | demo/rustc_driver/safety-tool-parser/src/precond/mod.rs:116-129 | with the assertion reversed and the `kind` arm corrected, a named-argument panic is the set's panic, and a built set starts with the named arguments in order |
| PrecondArgs.NewContents | demo/rustc_driver/safety-tool-parser/src/precond/mod.rs:116-129 | with the assertion reversed and the `kind` arm corrected, the set is the named arguments in order, then the property of the first positional argument, then the memo of the second |
| PrecondArgs.NamedKindUsed | demo/rustc_driver/safety-tool-parser/src/precond/mod.rs:116-159 | once `kind` reads as a kind argument, a kind given by name becomes the property's kind when the caller gives none |
| PrecondArgs.DocComments | demo/rustc_driver/safety-tool-parser/src/precond/mod.rs:88-94 | a memo argument yields one doc line per line of its trimmed text, none when it is blank, and every other argument yields nothing |
| ToolMacro.FindUnderscore | demo/safety-tool-macro/src/lib.rs:91 | nothing is found exactly when the name has no `_`; otherwise the position found holds the first `_` |
| ToolMacro.AliasOf | demo/safety-tool-macro/src/lib.rs:90-94 | a name without `_` panics; otherwise the alias is the text after the first `_` and is itself an identifier |
| ToolMacro.AliasOfPrefixed | demo/safety-tool-macro/src/lib.rs:90-94 | a prefix without `_`, an underscore and an identifier re-export under that identifier |
| ToolMacro.PubUse | demo/safety-tool-macro/src/lib.rs:83-101 | the macro succeeds exactly when every name has an alias, producing one re-export per name in order; otherwise it panics for the first name without one |
| ToolMacro.TableNamesMacros | demo/safety-tool-macro/src/lib.rs:49-80 | each of the 28 macros the table declares is named after its kind and a known property, joined by `_` |
| ToolMacro.TableAliases | demo/safety-tool-macro/src/lib.rs:49-94 | re-exporting any macro of the table gives it the name of its property |
| ToolMacro.MemoNotReExportable | demo/safety-tool-macro/src/lib.rs:103-107 | `Memo` has no `_`, so naming it in the re-export macro panics |
| ToolMacro.Expand | demo/safety-tool-macro/src/lib.rs:25-28 | the function keeps its own attributes in front, gains the doc lines of the arguments after them, and gains the tool attribute last |
| ToolMacro.Generate | demo/safety-tool-macro/src/lib.rs:12-29 | under either reading of `kind` (the source's is `AsWritten`), expansion succeeds exactly when the macro's arguments read, and otherwise fails with the reading's panic; the function's own attributes stay in front and the tool attribute comes last |
| ToolMacro.GenerateLayout | demo/safety-tool-macro/src/lib.rs:21-28 | under either reading, between the function's attributes and the tool attribute lie only doc lines, and the tool attribute starts with the property call the macro names and its kind |
| ToolMacro.OneNamedParsed | demo/safety-tool-macro/src/lib.rs:19-21 | arguments that are not assignments followed by one named argument the reading accepts read as that argument plus the arguments, positional |
| ToolMacro.MemoUseParsed | demo/safety-tool-macro/src/lib.rs:19-21 | under either reading, arguments that are not assignments followed by `memo = "m"` read as that memo plus the arguments, positional |
| ToolMacro.OneNamedCollected | demo/safety-tool-macro/src/lib.rs:21 | the set then holds the property built over those arguments, then the named argument |
| ToolMacro.MemoUseOutputs | demo/safety-tool-macro/src/lib.rs:22-23 | that set gives the memo's doc lines, and a tool attribute holding the property call, its kind and the memo |
| ToolMacro.MemoUse | demo/safety-tool-macro/src/lib.rs:12-29 | under either reading, `#[Kind_Name(args, memo = "m")]` expands to the function's attributes, the memo's doc lines, and one tool attribute with the property call, its kind and the memo |
| ToolMacro.KindUseAsWritten | demo/safety-tool-macro/src/lib.rs:12-29 | as written, `#[Kind_Name(args, kind = "v")]` expands exactly as `memo = "v"` does: a doc line of `v` and `memo = "v"` in the tool attribute |
| ToolMacro.KindUseCorrected | demo/safety-tool-macro/src/lib.rs:12-29 | with the `kind` arm corrected, the same input gains only the tool attribute with the property call and its kind |
| ToolMacro.KindUseOutputs | demo/rustc_driver/safety-tool-parser/src/property_attr/mod.rs:151-170 | a kind argument after the property adds no doc line and no tool-attribute argument |

## Left out

- Compiler plumbing is left out because it needs the compiler. This covers the HIR/MIR visitors, call resolution, `Data::new`, `PrimaryKey::new` and the source map. The ancestor chain of a call is a list parameter and definition keys are opaque.
- Token-level parsing and printing through syn and quote are left out. Attributes arrive as token runs or `SynExpr.Expr` values. `expr_to_string` is the expression's own text. A `syn` parse error is one `Err` value.
- tinytemplate rendering is reduced to `{name}` substitution with the lookups the source makes. Its escaping and formatters are not modelled.
- DocGen.Compile: the whole text between the braces is the placeholder name, so `{ name }` looks up ` name ` rather than `name`; tinytemplate accepts spaces inside the braces, which the model does not.
- annotate_snippets rendering of diagnostics is reduced to the title and the annotated range, because the rest is text layout by a foreign library.
- Panic and `unreachable!` messages are reduced to a datatype naming the cause, since their wording is not logic.
- SQLite persistence, the language server, JSON output, logging and the cargo wrappers are left out, because they are I/O around the core.
- The file system and the process environment are parameters. `ConfigEnv` receives variable values and directory listings, and `LegacyRegistry.Load` receives the documents already deserialized from the registry files.
- `args_in_any_tag` is not part of this model. `AnyTag.ArgsInAnyTag` stands in for it. For a tag named `any` it returns one group holding a tag for each argument that starts with an identifier, named by that identifier. For every other tag it returns nothing.
- ArgsInAnyTag: an `any` with no argument that starts with an identifier yields an empty group. safety-tool/src/bin/safety-tool/analyze_hir/db/data.rs:89-91 says the real `args_in_any_tag` never builds one, and the stand-in does not exclude it.
- `kind_property` and `gen_hover_doc` are not part of this model. The kind table is passed to the trackers as the `Settings` parameter.
- Unicode `to_lowercase` is modelled as ASCII lowercasing, which agrees on the ASCII tag names the sources use.
- Identifier validity in `pub_use` is simplified to `ToolMacro.IdentText`: non-empty and not starting with a digit. Keywords and Unicode identifier classes are not checked.
- The `tagged` flag of `ToolAttrs` is returned as part of the state value instead of being mutated in place.
- The `safety-tool` crate's own `property_attr` module is not part of this model. `DemoNamedArgs` stands in wherever `safety-tool/src/analyze_hir` reads a discharge attribute.
- demo/safety-tool-macro/src/lib.rs:21 calls `into_named_args_set(kind, property)`, which the driver parser spells `into_named_args_set2`. `ToolMacro.Generate` follows the two-argument version, `new_kind_and_property`.
- demo/rustc_driver/safety-tool-parser/src/property_attr/mod.rs:213 builds a `Property` without its `memo` field. The model gives that property no memo.
- demo/rustc_driver/safety-tool-parser/src/property_attr/utils.rs is not part of this model. Its `memo` is taken to be the one of demo/safety-parser, `DocMemo.Memo`.
- demo/rustc_driver/safety-tool-parser/src/precond/property.rs is not declared as a module by its `mod.rs`, which defines its own `Kind` and `Property`. `PrecondProperty` models the file on its own, and `PrecondArgs` uses the `mod.rs` types.
- Integer widths are written out: the `u16` counters of `Stats` wrap modulo 65536, and the `u32` subtraction in `Diagnostics.AnnoSpan` wraps modulo 2^32, as a release build does.
- `Stats.MetricsCountUsesLessOne` is modelled as written: the first use of a tag inserts 0, so each counter ends one below the number of uses.
- `keep_doc_order.rs` is reduced to appending attributes (`ToolMacro.Expand`), because it is a thin syn attribute append.
- The `safety` macro's doc generation reads the registry, and the registry reads the file system; `SafetyMacro` takes the loaded registry as a parameter.

## Findings

| source | as written | input that shows it | evidently intended | confidence | as-written member | corrected member |
|---|---|---|---|---|---|---|
| safety-tool/src/analyze_hir/visit.rs:67-86 | the call node's answer from `check(self.hir_id)` is dropped, so the walk goes on even when the call itself carries tags, and the last check runs on top of the walk's | a call tagged `X` whose enclosing block is also tagged `X` ends in the `already discharged` assertion; an untagged call whose block names only some tags gets the same pending tags reported twice, at the enclosing node and again at the call | stop at the first node with tags, the call node included, and report once | medium, not executed | FlatTracker.TaggedCallWalksOn, FlatTracker.DoubleReport | FlatTracker.CheckToolAttrsOnce, FlatTracker.OnceStopsAtTaggedCall, FlatTracker.OnceSameState |
| demo/safety-parser/src/property_attr/property.rs:221-233 | the guard compares with `args_len`, which is 3 for `Allocated`, but the sentence reads `args[3]` | `Allocated(p, T, n)` passes the guard and then indexes past the end | the guard asks for the four arguments the sentence reads | high, not executed | DemoProperty.AllocatedGuardGap | DemoProperty.DocSentence |
| demo/rustc_driver/safety-tool-parser/src/precond/mod.rs:193-194 | `assert!(!first)` asserts that the insertion found the argument already present | `memo = "reason"`, or any other first named argument, panics | `assert!(first)`, which rejects only repeated arguments, as the other parser does | high, not executed | PrecondArgs.EveryNamedArgPanics, PrecondArgs.MemoArgumentRefused | PrecondArgs.ParseNamedArgsSpec, PrecondArgs.MemoArgumentRead |
| demo/rustc_driver/safety-tool-parser/src/property_attr/property.rs:85 | `"memo" => Kind::Option` | the token printed for `Kind::Memo` reads back as `Option` | `"memo" => Kind::Memo`, the inverse of the token printing | high, not executed | DriverProperty.KindNewAsWritten, DriverProperty.MemoReadsAsOption | DriverProperty.KindNew, DriverProperty.KindRoundTrip |
| demo/rustc_driver/safety-tool-parser/src/property_attr/mod.rs:79-83 | a string `kind` argument is stored as `NamedArg::Memo` | `#[Precond_Align(p, kind = "hazard")]` gains a doc line `hazard` and `memo = "hazard"` in its tool attribute; `kind = "a", memo = "a"` panics on the duplicate at mod.rs:243-244 | store it as `NamedArg::Kind`, which adds neither a doc line nor a memo | high, not executed | DriverNamedArgs.NamedArgNewAsWritten, DriverNamedArgs.KindThenMemo, ToolMacro.KindUseAsWritten | DriverNamedArgs.NamedArgNew, DriverNamedArgs.NamedArgRoundTrip, ToolMacro.KindUseCorrected |
| demo/rustc_driver/safety-tool-parser/src/precond/mod.rs:78-83 | a string `kind` argument is stored as `NamedArg::Memo` | `kind = "hazard"` becomes a memo, so the positional reading never finds a kind argument | store it as `NamedArg::Kind`, which `parse_positional_args` searches for | high, not executed | PrecondArgs.NamedArgNewAsWritten, PrecondArgs.KindReadAsMemo | PrecondArgs.NamedArgNew, PrecondArgs.NamedKindUsed |
