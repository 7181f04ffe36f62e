# DataWorkflowServices (DWS) core logic in Dafny

DWS is the Kubernetes API and controller set that lets a workload
manager ask for data-movement and storage services. A job asks for these
through `#DW` directives, lines such as `#DW jobdw type=xfs capacity=10GB name=a`.
This project models the self-contained logic of DWS and proves properties
about it:

- **The `#DW` directive parsers.** The current one splits a directive into
  an argument map, builds a key-to-definition table from a rule, and
  validates the arguments: their types, required values, integer bounds,
  booleans, names that must be unique across a workflow, and required
  arguments. It then reports every (directive, rule) pair that matched.
  An older variant of the parser is modelled beside it.
- **The resource-error record.** DWS resources carry it in their status.
  It has fluent `With*` builders, and its `Error()` text is deterministic.
- **The Workflow reconciler's status roll-up.** The reconciler sets the
  workflow's status from the reports of its drivers.
- **The client-mount daemon's reconciler.** It mounts and unmounts the
  file systems a ClientMount lists, by running shell commands, and records
  each outcome in the resource's status.
- **The generic status updater.** It writes a resource back only when its
  status changed.
- **The hand-written parts of the conversions** between the v1alpha1
  (spoke) and v1alpha2 (hub) API versions.

Structure: one module per source file, all in the top directory.

- `base.dfy` has `Option` and `Result`.
- `gostrings.dfy` models the parts of Go's `strings` and `strconv` packages
  the code relies on, plus a `Regexp` module of regex outcomes.
- `dwdparse.dfy` and `dwdparse_legacy.dfy` are the two parsers.
- `resource_error.dfy`, `workflow_controller.dfy`,
  `clientmount_controller.dfy`, `status_updater.dfy` and `conversion.dfy`
  cover the remaining parts.

Where the Go code updates an object in place, the model is a class whose
methods carry `modifies` clauses:

- ResourceErrorInfo's builders;
- the Workflow status block;
- the ClientMount reconciler, with its command log and the resource's
  status and finalizers;
- the status updater and its client.

Each such method is proved against a specification function. The
properties are proved as lemmas about those functions. Go's map iteration
over the argument map appears as a loop over an arbitrarily chosen pending
key (`var k :| k in pending`). Because of that, the contracts fix whether a
call fails, not which fault is reported.

## Model

| member | source | states |
|---|---|---|
| DwdParse.UnsupportedCommandMessage | utils/dwdparse/dwdparse.go:62-73 | The unsupported-command error reads `unsupported Command: '<command>'`, and the command can be read back out of the text |
| DwdParse.KeyValueCut | utils/dwdparse/dwdparse.go:101-117 | An argument word without `=` maps its whole text to "true". Otherwise the key is the text before the first `=` and the value is everything after it, further `=` included |
| DwdParse.CollectArgsAccepts | utils/dwdparse/dwdparse.go:101-118 | The argument loop succeeds exactly when no word repeats a key already in the map or the key of an earlier word. Every failure is the repeated-argument error |
| DwdParse.CollectArgsContents | utils/dwdparse/dwdparse.go:99-118 | After a successful loop, the keys are the given ones plus the words' keys. Given values are kept, and each word's value is stored under its key |
| DwdParse.CollectArgsKeys | utils/dwdparse/dwdparse.go:101-118 | The keys of the resulting map are exactly the given keys plus those of the words |
| DwdParse.CollectArgsKeeps | utils/dwdparse/dwdparse.go:99-118 | The loop never changes an entry that was already in the map |
| DwdParse.CollectArgsStores | utils/dwdparse/dwdparse.go:101-117 | Each word's value ends up under its key |
| DwdParse.ParseDirectiveAccepts | utils/dwdparse/dwdparse.go:91-118 | The missing-prefix error happens exactly when the first word is not `#DW`, blank input included. Success happens exactly when the prefix is there, a command word follows, and no argument key repeats, with `command` counting as a key |
| DwdParse.ParseDirectiveArgs | utils/dwdparse/dwdparse.go:99-118 | An accepted directive maps "command" to its second word and each argument key to its value. It holds no other key |
| DwdParse.ParseDirective | utils/dwdparse/dwdparse.go:91-121 | The specification of BuildArgsMap: the `#DW` check, "command", then the argument loop. No ensures: its meaning is ParseDirectiveAccepts and ParseDirectiveArgs |
| DwdParse.ParseRendered | utils/dwdparse/dwdparse.go:93-101 | A directive written out from `#DW`, a command and argument words splits back into exactly those words. Its parse is the argument loop over them |
| DwdParse.DirectiveWords | utils/dwdparse/dwdparse.go:93 | The words of a rendered directive are all white-space-free and non-empty |
| DwdParse.BuildArgsMap | utils/dwdparse/dwdparse.go:91-121 | The Go loop computes the specification ParseDirective: the `#DW` check, "command", then each word split at `=` |
| DwdParse.RuleTableKeys | utils/dwdparse/dwdparse.go:79-81 | The rule table holds exactly the keys of the rule's definitions, each under its own key |
| DwdParse.RuleTableLastWins | utils/dwdparse/dwdparse.go:79-81 | When one key has several definitions, the last one is kept |
| DwdParse.RuleTableEmpty | utils/dwdparse/dwdparse.go:79-85 | The table is empty exactly when the rule has no definitions |
| DwdParse.BuildRulesMap | utils/dwdparse/dwdparse.go:76-88 | Fails exactly when the rule defines nothing, with the unsupported-command error naming `cmd`. Otherwise it returns the rule table |
| DwdParse.CheckValue | utils/dwdparse/dwdparse.go:156-191 | A required value that is empty is malformed. Otherwise the value is checked by its type, and each condition is stated both ways. An integer passes iff it parses and lies within Max and Min, each applied only when nonzero. A bool passes iff the pattern is empty or the value matches `(?i)^(true|false)$` under Go's simple case folding: each letter in either case, and `ſ` (U+017F) in place of `s`. A string passes iff the pattern is empty or matches, and a pattern that does not compile is reported as such. Any other type is unsupported |
| DwdParse.FoldMatch | utils/dwdparse/dwdparse.go:142 | Equal length, and each character folds to the pattern's letter at its position. No ensures: its meaning is BoolWordCases |
| DwdParse.IsBoolWord | utils/dwdparse/dwdparse.go:142 | The bool matcher `(?i)^(true|false)$`: the whole value folds to `true` or to `false`. No ensures: its meaning is BoolWordCases |
| DwdParse.BoolWordCases | utils/dwdparse/dwdparse.go:142 | Every casing of true and false is accepted. An accepted value without `ſ` lowers to true or false. `falſe` is accepted, though it does not lower to `false` |
| DwdParse.NamesInMonotone | utils/dwdparse/dwdparse.go:193-200 | Visiting more arguments claims at least the same unique names |
| DwdParse.VisitUnscoped | utils/dwdparse/dwdparse.go:193 | An argument without a uniqueness scope claims no name and keeps the claimed names fresh and distinct |
| DwdParse.VisitScoped | utils/dwdparse/dwdparse.go:193-200 | A scoped argument whose `<scope>/<value>` name is new adds exactly that name, keeping names fresh and distinct |
| DwdParse.ValueRefused | utils/dwdparse/dwdparse.go:151-191 | An argument without a definition, or with a value its definition refuses, makes the arguments fail |
| DwdParse.ValueAccepted | utils/dwdparse/dwdparse.go:150-191 | The command, or an argument whose value its definition accepts, keeps every visited value passing |
| DwdParse.NameTaken | utils/dwdparse/dwdparse.go:194-197 | A scoped name already claimed, by an earlier directive or by another argument of this one, makes the arguments fail |
| DwdParse.ValidateArgs | utils/dwdparse/dwdparse.go:124-220 | ValidateArgs accepts exactly when all of these hold: the command is present and is the rule's; the rule has definitions; every other argument has a definition its value passes; every scoped name is unclaimed and distinct; and every required definition has its argument. On success the claimed names are extended by exactly this directive's names. On failure they grow by at most those |
| DwdParse.CheckArguments | utils/dwdparse/dwdparse.go:150-206 | The argument loop succeeds exactly when every value passes and every scoped name is fresh and distinct. It records each matched definition and claims the names |
| DwdParse.CheckArgument | utils/dwdparse/dwdparse.go:151-204 | One iteration of that loop keeps its invariant on success. On failure it shows that the value, or the name, is refused |
| DwdParse.CheckRequired | utils/dwdparse/dwdparse.go:209-217 | The definition loop succeeds exactly when every required definition has its argument |
| DwdParse.ArgsAcceptedSplit | utils/dwdparse/dwdparse.go:124-220 | Acceptance splits into acceptance with no names claimed, plus freshness of this directive's names against those claimed before |
| DwdParse.Judge | utils/dwdparse/dwdparse.go:254-272 | What one rule makes of one directive, apart from earlier claims: it claims names exactly when the rule applies, and the names are then the directive's unique names |
| DwdParse.JudgeCases | utils/dwdparse/dwdparse.go:257-264 | A parse failure fails, another command is skipped, and for the rule's own command the argument check decides |
| DwdParse.DecideArgs | utils/dwdparse/dwdparse.go:266-271 | For the rule's own command, ValidateArgs' acceptance matches the judgement's claim plus the freshness of its names |
| DwdParse.ValidateDirective | utils/dwdparse/dwdparse.go:254-272 | validateDWDirective is valid exactly when accepted and errs exactly when rejected. A rule for another command is skipped without touching the claimed names |
| DwdParse.Judges | utils/dwdparse/dwdparse.go:233-243 | One judgement per rule for a directive, in rule order |
| DwdParse.AllJudges | utils/dwdparse/dwdparse.go:227-248 | One row of judgements per directive |
| DwdParse.Validate | utils/dwdparse/dwdparse.go:222-251 | Validate succeeds exactly when the specification passes. The callback calls are the specification's, in order. A directive no rule matched gives `invalid directive '<d>'` (ValidateSucceeds, ValidateCalls and ValidateCallsAll give the specification its meaning) |
| DwdParse.ValidateSpec | utils/dwdparse/dwdparse.go:222-251 | The specification of Validate over the judgements of every rule on every directive. No ensures: its meaning is ValidateSucceeds, ValidateCalls, ValidateCallsAll and SharedNameRefused |
| DwdParse.RulesFromGrows | utils/dwdparse/dwdparse.go:233-243 | Checking a directive against the rules only adds claimed names and calls. It matched exactly when it added a call |
| DwdParse.RulesFromCalls | utils/dwdparse/dwdparse.go:239-242 | Each call added is for this directive and a rule that claims it |
| DwdParse.RulesFromClaimsAll | utils/dwdparse/dwdparse.go:233-243 | A pass that did not abort met no failing rule and claimed every name its matching rules claim |
| DwdParse.RulesFromRefusesClaimed | utils/dwdparse/dwdparse.go:193-200 | A rule that claims a name already claimed aborts the pass |
| DwdParse.RulesFromSharedAborts | utils/dwdparse/dwdparse.go:193-200 | Two rules that apply to one directive, one after the other, and claim a common name abort the pass |
| DwdParse.RulesFromMatchesClaim | utils/dwdparse/dwdparse.go:239-242 | A pass that meets an applying rule either aborts or matches |
| DwdParse.AllJudgesAt | utils/dwdparse/dwdparse.go:233-234 | The judgement of rule j on directive i is Judge of that pair |
| DwdParse.DirectivePassCalls | utils/dwdparse/dwdparse.go:231-247 | The pass over directive i only appends calls for directive i, and it matched exactly when it appended one |
| DwdParse.ValidateFromCalls | utils/dwdparse/dwdparse.go:227-248 | Calls stay in directive order, and each is for a rule that claims its directive |
| DwdParse.InOrderAppend | utils/dwdparse/dwdparse.go:241 | Appending calls for directive i after calls for earlier directives keeps the calls in order |
| DwdParse.ValidateFromPassed | utils/dwdparse/dwdparse.go:245-250 | If the rest passes, every remaining directive had a call and no rule failed any of them |
| DwdParse.ValidateFromKeepsCalls | utils/dwdparse/dwdparse.go:227-248 | Earlier calls stay a prefix of the final calls |
| DwdParse.ValidateCalls | utils/dwdparse/dwdparse.go:227-248 | The callback is called in directive order, and only for a directive and a rule that applies to it |
| DwdParse.ClaimedApplies | utils/dwdparse/dwdparse.go:239-241 | A call for a claiming judgement names a rule that applies to its directive |
| DwdParse.ValidatePassed | utils/dwdparse/dwdparse.go:227-250 | When Validate succeeds, every directive had a call, and each rule either applies to each directive or is for another command |
| DwdParse.RulesFromCallsAll | utils/dwdparse/dwdparse.go:233-243 | A pass that is not aborted has called back every later rule that claims the directive |
| DwdParse.ValidateFromCallsAll | utils/dwdparse/dwdparse.go:227-248 | If the rest passes, every rule that claims a remaining directive was called back for it |
| DwdParse.ValidateCallsAll | utils/dwdparse/dwdparse.go:239-242 | When Validate succeeds, every rule that applies to a directive was called back for that directive. With ValidateCalls, the calls are exactly the applying pairs |
| DwdParse.RulesFromSucceeds | utils/dwdparse/dwdparse.go:233-243 | With no failing rule and disjoint, unclaimed names, the pass is not aborted. It matches iff some rule claims the directive, and it adds only those rules' names |
| DwdParse.ValidateFromSucceeds | utils/dwdparse/dwdparse.go:227-248 | Remaining directives that are each claimed, failed by no rule, and claim disjoint, unclaimed names pass |
| DwdParse.ValidateSucceeds | utils/dwdparse/dwdparse.go:222-251 | Validate succeeds iff three things hold. Every directive has a rule that applies. Every rule applies to each directive or is for another command. No unique name is claimed by two different (directive, rule) pairs |
| DwdParse.AcceptableClaims | utils/dwdparse/dwdparse.go:254-272 | If the directives are acceptable, each is claimed by some rule and failed by none |
| DwdParse.AcceptableClaimed | utils/dwdparse/dwdparse.go:254-272 | The same, for one directive |
| DwdParse.AcceptableClaimsDisjoint | utils/dwdparse/dwdparse.go:193-200 | If the directives are acceptable, the claimed names are pairwise disjoint |
| DwdParse.AcceptableDisjoint | utils/dwdparse/dwdparse.go:193-200 | The same, for one pair of pairs |
| DwdParse.JudgeNotFails | utils/dwdparse/dwdparse.go:257-271 | A judgement that does not fail means the rule applies or is for another command |
| DwdParse.ValidateNoRules | utils/dwdparse/dwdparse.go:227-247 | No directives pass with no calls. Directives with no rules fail on the first directive |
| DwdParse.RepeatedDirectiveRefused | utils/dwdparse/dwdparse.go:193-200 | A directive that claims a unique name cannot appear twice: Validate fails, as in the conflicting-name test row (utils/dwdparse/dwdparse_test.go:272-273). A case of SharedNameRefused |
| DwdParse.SharedNameRefused | utils/dwdparse/dwdparse.go:193-200 | Two applying (directive, rule) pairs whose unique names overlap make Validate fail. The pairs may be on two directives, or on one directive with two rules |
| DwdParse.SharedFrom | utils/dwdparse/dwdparse.go:227-248 | SharedNameRefused, over the judgements, from any directive up to the first of the two |
| DwdParse.TakenFrom | utils/dwdparse/dwdparse.go:193-200 | Once a name that a rule claims for a later directive is taken, checking from any earlier directive on fails |
| LegacyDwdParse.DefineAppend | pkg/utils/dwdparse/dwdparse.go:20-22 | Defining a concatenation defines the first part, then the second |
| LegacyDwdParse.UnionDefines | pkg/utils/dwdparse/dwdparse.go:18-24 | The loop over the rules defines exactly the definitions of the rules for `cmd`, in rule order |
| LegacyDwdParse.DefineKeys | pkg/utils/dwdparse/dwdparse.go:20-22 | Defining adds exactly the definitions' keys, and each key maps to a definition with that key |
| LegacyDwdParse.DefineLastWins | pkg/utils/dwdparse/dwdparse.go:20-22 | Of several definitions with one key, the last is kept |
| LegacyDwdParse.DefineKeeps | pkg/utils/dwdparse/dwdparse.go:20-22 | A key no definition has keeps its entry |
| LegacyDwdParse.UnionTable | pkg/utils/dwdparse/dwdparse.go:15-31 | The joined table holds the keys of every definition of every rule for the command, each under its own key. It is empty exactly when those rules define nothing |
| LegacyDwdParse.UnionLastWins | pkg/utils/dwdparse/dwdparse.go:18-24 | A key maps to its last definition across all rules for the command |
| LegacyDwdParse.BuildRulesMap | pkg/utils/dwdparse/dwdparse.go:15-31 | Fails exactly when the rules for `cmd` define nothing, with `Unsupported #DW command <cmd>`. Otherwise it returns the joined table |
| LegacyDwdParse.BuildArgsMap | pkg/utils/dwdparse/dwdparse.go:34-54 | The loop computes ParseArgs |
| LegacyDwdParse.AssignKeys | pkg/utils/dwdparse/dwdparse.go:39-49 | The keys after the loop are the given keys plus the words' keys |
| LegacyDwdParse.AssignLastWins | pkg/utils/dwdparse/dwdparse.go:39-49 | A word whose key no later word repeats gives that key its value: a repeated key keeps its last value |
| LegacyDwdParse.AssignKeeps | pkg/utils/dwdparse/dwdparse.go:39-49 | A key no word has keeps its value |
| LegacyDwdParse.ParseArgsMeaning | pkg/utils/dwdparse/dwdparse.go:34-54 | Fails exactly when the first word is not `#DW`, with `missing #DW in directive`. Otherwise the keys are "command" and the words' keys, and "command" is the second word unless a later word has that key |
| LegacyDwdParse.WordArgsMeaning | pkg/utils/dwdparse/dwdparse.go:38-49 | ParseArgsMeaning, on the directive's words |
| LegacyDwdParse.ParseArgsLastWins | pkg/utils/dwdparse/dwdparse.go:39-48 | Each argument word whose key no later word repeats gives its value |
| LegacyDwdParse.WordArgsLastWins | pkg/utils/dwdparse/dwdparse.go:39-48 | ParseArgsLastWins, on the directive's words |
| LegacyDwdParse.ValueError | pkg/utils/dwdparse/dwdparse.go:74-109 | The per-value checks, with the old messages, each stated both ways. The exception is booleans: with a pattern, only the six spellings true/false/True/False/TRUE/FALSE pass |
| LegacyDwdParse.ValidateArgs | pkg/utils/dwdparse/dwdparse.go:57-113 | Accepts exactly when some rule for the command defines arguments and every other argument has a definition its value passes. A command with no definitions gives the unsupported-command text |
| LegacyDwdParse.RequiredNeverChecked | pkg/utils/dwdparse/dwdparse.go:67-112 | A directive that gives only its command is accepted whenever some rule defines arguments for it. IsRequired is never checked |
| LegacyDwdParse.BoolFormsNarrower | pkg/utils/dwdparse/dwdparse.go:65 | Every old boolean spelling is accepted by the new parser, but the new parser also accepts "tRUE" and the old one does not |
| LegacyDwdParse.FirstInvalid | pkg/utils/dwdparse/dwdparse.go:143-154 | The first directive that does not parse or is not accepted, if any. There is none exactly when all are valid |
| LegacyDwdParse.ValidateDirectives | pkg/utils/dwdparse/dwdparse.go:143-156 | The directive loop succeeds exactly when every directive parses and is accepted. When the first invalid directive is one that does not parse, the error is the missing-prefix one |
| LegacyDwdParse.CollectIsAssign | pkg/utils/dwdparse/dwdparse.go:39-49 | Where the new parser's argument loop succeeds, it builds the same map as the old one |
| LegacyDwdParse.ParsersAgree | pkg/utils/dwdparse/dwdparse.go:34-54 | The two parsers agree on every directive the new one accepts. A `#DW` directive with a repeated key is refused by the new parser and accepted by the old one, which keeps the later value |
| LegacyDwdParse.StagingTable | pkg/utils/dwdparse/dwdparse_test.go:8-58 | The test rules' joined table for stage_in and stage_out: type, destination and source, all required strings |
| LegacyDwdParse.StagingAccepted | pkg/utils/dwdparse/dwdparse_test.go:61-68 | A staging directive with a matching type and non-empty paths is accepted |
| LegacyDwdParse.MatchingDefsEmpty | pkg/utils/dwdparse/dwdparse.go:15-31 | No definitions match a command iff every rule for that command defines nothing |
| LegacyDwdParse.CommandWithoutRulesRefused | pkg/utils/dwdparse/dwdparse.go:57-62 | A directive whose command no rule defines anything for is refused, whatever its arguments |
| LegacyDwdParse.UnknownCommandRefused | pkg/utils/dwdparse/dwdparse_test.go:71-76 | A command other than stage_in and stage_out is refused by the test rules, whatever its arguments. A case of CommandWithoutRulesRefused |
| LegacyDwdParse.BadTypeRefused | pkg/utils/dwdparse/dwdparse_test.go:71-76 | A type the pattern does not match is refused |
| LegacyDwdParse.UnknownKeyRefused | pkg/utils/dwdparse/dwdparse_test.go:71-76 | A key the staging rules do not define is refused |
| LegacyDwdParse.KeyValuePair | pkg/utils/dwdparse/dwdparse.go:40-47 | A `k=v` word with no `=` in k splits back into k and v |
| LegacyDwdParse.StagingDirectiveValid | pkg/utils/dwdparse/dwdparse_test.go:79-108 | The test's valid directives, written out as text, parse and are accepted |
| LegacyDwdParse.StagingParse | pkg/utils/dwdparse/dwdparse.go:34-54 | A written-out staging directive parses back into its command, type, destination and source |
| LegacyDwdParse.StagingAssign | pkg/utils/dwdparse/dwdparse.go:39-49 | The argument loop on the staging words gives the map of the four arguments |
| LegacyDwdParse.AssignPair | pkg/utils/dwdparse/dwdparse.go:43-44 | Assigning a `k=v` word stores v under k |
| GoStrings.FieldsAreWords | utils/dwdparse/dwdparse.go:93 | Every field of strings.Fields is non-empty and free of white space |
| GoStrings.FieldsOfUnwords | utils/dwdparse/dwdparse.go:93 | strings.Fields undoes joining words with blanks |
| GoStrings.Fields | utils/dwdparse/dwdparse.go:93 | strings.Fields: the maximal runs of non-space characters, in order. No ensures: its meaning is FieldsAreWords and FieldsOfUnwords |
| GoStrings.JoinSplit | mount-daemon/controllers/clientmount_controller.go:252 | Joining the parts of strings.Split gives back the string |
| GoStrings.SplitJoin | mount-daemon/controllers/clientmount_controller.go:252 | Splitting separator-free parts joined by the separator gives back the parts |
| GoStrings.SplitPartsFree | mount-daemon/controllers/clientmount_controller.go:252 | No part of strings.Split holds the separator |
| GoStrings.Split | mount-daemon/controllers/clientmount_controller.go:252 | strings.Split: the text between separators, in order. Its ensures gives at least one part. Its meaning is JoinSplit, SplitJoin and SplitPartsFree |
| GoStrings.Join | mount-daemon/controllers/clientmount_controller.go:252 | The inverse of Split, used only to state it: the parts with the separator between them. No ensures: its meaning is JoinSplit and SplitJoin |
| GoStrings.SplitOfToken | utils/dwdparse/dwdparse.go:102-116 | Split gives one part iff the separator is missing. Otherwise the first part ends at the first separator, and SplitN(s, sep, 2) is the two sides of it |
| GoStrings.AtoiItoa | utils/dwdparse/dwdparse.go:162-170 | strconv.Atoi parses back what strconv.Itoa prints, for every 64-bit int |
| GoStrings.Atoi | utils/dwdparse/dwdparse.go:162-165 | strconv.Atoi without its error: an optional sign and at least one digit, whose value fits a 64-bit int. Its ensures keeps the value in range. Its meaning is AtoiItoa and ParseIntAgrees |
| GoStrings.Itoa | utils/dwdparse/dwdparse.go:167-170 | strconv.Itoa: a minus sign for a negative number, then the digits without leading zeros. No ensures: its meaning is AtoiItoa |
| GoStrings.ToLower | pkg/controller/workflow/workflow_controller.go:83 | strings.ToLower on ASCII letters, each lowered. Its ensures keeps the length. Its meaning is BoolWordCases |
| GoStrings.ScanUint | api/v1alpha1/conversion.go:439 | strconv.ParseUint's digit loop: a non-digit gives 0 and a syntax error. A digit that would pass 2^64-1 stops the scan with 2^64-1 and a range error, whatever follows |
| GoStrings.ParseInt | api/v1alpha1/conversion.go:439 | strconv.ParseInt(s, 10, 64), which Atoi calls: the sign, then ScanUint. The value is clamped to the int64 range on overflow. No ensures: its meaning is ParseIntAgrees |
| GoStrings.ScanDigits | api/v1alpha1/conversion.go:439 | On digits only, the scan yields their value if it fits a uint64, and a range error otherwise |
| GoStrings.DecimalGrows | api/v1alpha1/conversion.go:439 | Appending digits never lowers the value |
| GoStrings.ScanOverflows | api/v1alpha1/conversion.go:439 | Digits whose value passes the uint64 range give a range error, whatever follows them |
| GoStrings.ScanStopsAtNonDigit | api/v1alpha1/conversion.go:439 | A non-digit reached before the value passes the range gives a syntax error |
| GoStrings.ScanFromZero | api/v1alpha1/conversion.go:439 | The scan succeeds iff the text is digits whose value fits a uint64, and then yields that value |
| GoStrings.ScanNotDigits | api/v1alpha1/conversion.go:439 | Text that is not all digits never scans without an error |
| GoStrings.ParseIntAgrees | utils/dwdparse/dwdparse.go:162-165 | ParseInt has no error iff Atoi succeeds, with the same value, and its value is always a 64-bit int |
| GoStrings.AtoiValue | api/v1alpha1/conversion.go:439 | The number Atoi returns beside its error: the parsed value when there is no error. Otherwise 0 or an end of the int64 range |
| GoStrings.AtoiValueOverflows | api/v1alpha1/conversion.go:439 | Digits past the uint64 range give the end of the int64 range that the sign points to, even when a non-digit follows |
| GoStrings.AtoiValueMalformed | api/v1alpha1/conversion.go:439 | A non-digit reached while the value still fits a uint64 gives 0 |
| GoStrings.AtoiValueOverflowExample | api/v1alpha1/conversion.go:439 | `99999999999999999999x` gives the largest int64, not 0 |
| GoStrings.NinesValue | api/v1alpha1/conversion.go:439 | k nines are worth 10^k - 1 |
| ResourceErrors.Fresh | api/v1alpha2/resource_error.go:65-71 | NewResourceError: Internal, Minor, the formatted text as the debug message, and no user message |
| ResourceErrors.Shown | api/v1alpha2/resource_error.go:133-137 | The debug message when there is one, the user message otherwise |
| ResourceErrors.TypePrefixes | api/v1alpha2/resource_error.go:139 | Error() starts with "internal error: " or "user error: " |
| ResourceErrors.ErrorTextDecodes | api/v1alpha2/resource_error.go:132-140 | Two records with the same Error() text have the same type and shown message: the text loses nothing it reports |
| ResourceErrors.SetUserMessage | api/v1alpha2/resource_error.go:73-81 | WithUserMessage sets the user message only while it is empty and changes nothing else |
| ResourceErrors.FirstUserMessageWins | api/v1alpha2/resource_error.go:75-77 | Once the user message is set, any series of later WithUserMessage calls leaves the record unchanged |
| ResourceErrors.UserMessageOfChain | api/v1alpha2/resource_error.go:73-81 | A chain of WithUserMessage calls on a record without a user message ends with the first non-empty message of the chain |
| ResourceErrors.Inherit | api/v1alpha2/resource_error.go:83-105 | WithError with a child record takes its severity, type, user message, and shown message as debug message. With any other error, only the debug message changes, to the error's text |
| ResourceErrors.StoredText | api/v1alpha2/resource_error.go:162-168 | The stored record's Error() is the child's for a resource error, and "internal error: " plus the text otherwise. It keeps the child's severity, type and user message |
| ResourceErrors.StoredIdempotent | api/v1alpha2/resource_error.go:162-168 | Storing a stored record again changes nothing |
| ResourceErrors.EntryFor | api/v1alpha2/resource_error.go:142-160 | The log entry: none for nil, an error entry exactly for a fatal resource error, otherwise an info entry with the text and the severity when there is one |
| ResourceErrors.ResourceErrorInfo.constructor | api/v1alpha2/resource_error.go:65-71 | The new record's fields are Fresh(debug) |
| ResourceErrors.ResourceErrorInfo.WithUserMessage | api/v1alpha2/resource_error.go:73-81 | Updates the record to SetUserMessage of its old fields and returns the receiver |
| ResourceErrors.ResourceErrorInfo.WithError | api/v1alpha2/resource_error.go:83-105 | Updates the record to Inherit of its old fields and returns the receiver |
| ResourceErrors.ResourceErrorInfo.WithSeverity | api/v1alpha2/resource_error.go:107-120 | Only the severity changes, and the receiver is returned |
| ResourceErrors.ResourceErrorInfo.WithFatal | api/v1alpha2/resource_error.go:107-110 | Only the severity changes, to Fatal |
| ResourceErrors.ResourceErrorInfo.WithMajor | api/v1alpha2/resource_error.go:112-115 | Only the severity changes, to Major |
| ResourceErrors.ResourceErrorInfo.WithMinor | api/v1alpha2/resource_error.go:117-120 | Only the severity changes, to Minor |
| ResourceErrors.ResourceErrorInfo.WithInternal | api/v1alpha2/resource_error.go:122-125 | Only the type changes, to Internal |
| ResourceErrors.ResourceErrorInfo.WithUser | api/v1alpha2/resource_error.go:127-130 | Only the type changes, to User |
| ResourceErrors.ResourceErrorInfo.Error | api/v1alpha2/resource_error.go:132-140 | Returns the lower-cased type, " error: ", and the shown message |
| ResourceErrors.ResourceError.constructor | api/v1alpha2/resource_error.go:60-63 | A status part with no error |
| ResourceErrors.ResourceError.SetResourceError | api/v1alpha2/resource_error.go:162-168 | nil clears the error. Any other error stores a new record, NewResourceError("").WithError(err) |
| ResourceErrors.ResourceError.SetResourceErrorAndLog | api/v1alpha2/resource_error.go:142-160 | The same state effect as SetResourceError, plus the EntryFor log entry |
| WorkflowController.RollUpFromMeaning | pkg/controller/workflow/workflow_controller.go:80-94 | A suffix of drivers rolls up to done iff each is settled. Otherwise the first unsettled driver decides the result |
| WorkflowController.DriverRollUpMeaning | pkg/controller/workflow/workflow_controller.go:80-94 | checkDriverStatus is done exactly when every driver watching the desired state completed without error, an empty list included. Otherwise the first such driver that has not decides: an error with its message if its reason lower-cases to "error", and a wait otherwise |
| WorkflowController.RollUpFrom | pkg/controller/workflow/workflow_controller.go:80-94 | The loop of checkDriverStatus from driver i on. No ensures: its meaning is RollUpFromMeaning |
| WorkflowController.DriverRollUp | pkg/controller/workflow/workflow_controller.go:80-94 | checkDriverStatus's answer. No ensures: its meaning is DriverRollUpMeaning and RollUpDecidedByFirst |
| WorkflowController.RollUpDecidedByFirst | pkg/controller/workflow/workflow_controller.go:83-90 | The first unsettled driver decides the roll-up, so a later error goes unreported after an earlier wait |
| WorkflowController.OtherStatesIgnored | pkg/controller/workflow/workflow_controller.go:81-82 | Inserting a driver that watches another state anywhere never changes the roll-up |
| WorkflowController.RollUpShift | pkg/controller/workflow/workflow_controller.go:81-82 | Up to the inserted driver, the extended list rolls up as the original |
| WorkflowController.RollUpTail | pkg/controller/workflow/workflow_controller.go:81-82 | Past the inserted driver, the extended list rolls up as the original, one position later |
| WorkflowController.CheckDriverStatus | pkg/controller/workflow/workflow_controller.go:80-94 | The loop with early returns computes the roll-up |
| WorkflowController.NextStatus | pkg/controller/workflow/workflow_controller.go:132-151 | State becomes the desired state, and the driver list is kept. Ready holds iff done. The three outcomes set reason "ERROR" with the driver's message, "Completed" with its success message, or "DriverWait" with its waiting message |
| WorkflowController.ReadyMeansSettled | pkg/controller/workflow/workflow_controller.go:132-151 | After the status block, the workflow is ready exactly when every driver for its desired state completed without error |
| WorkflowController.NextStatusIdempotent | pkg/controller/workflow/workflow_controller.go:132-151 | Running the status block twice writes what running it once did |
| WorkflowController.Workflow.constructor | pkg/apis/dws/v1alpha1/workflow_types.go:45-98 | A workflow with the given spec and status |
| WorkflowController.Workflow.UpdateStatus | pkg/controller/workflow/workflow_controller.go:132-151 | The spec is unchanged, and the status becomes NextStatus of the old status and its roll-up |
| ClientMountController.AddressesJoin | mount-daemon/controllers/clientmount_controller.go:233-235 | Each address followed by `:`, then a tail, is the `:`-join of the addresses and the tail |
| ClientMountController.Addresses | mount-daemon/controllers/clientmount_controller.go:233-235 | Each MGS address followed by `:`. No ensures: its meaning is AddressesJoin |
| ClientMountController.DeviceName | mount-daemon/controllers/clientmount_controller.go:228-243 | For Lustre the addresses, then `/` and the file system name, and "" otherwise. No ensures: its meaning is DeviceSplits |
| ClientMountController.DeviceSplits | mount-daemon/controllers/clientmount_controller.go:230-239 | The Lustre device string loses nothing: with no `:` in the addresses or file system name, splitting it at `:` gives the addresses, then "/" and the name |
| ClientMountController.ListedAt | mount-daemon/controllers/clientmount_controller.go:252-257 | A line whose third field is the path makes the listing show it mounted |
| ClientMountController.ShowsMount | mount-daemon/controllers/clientmount_controller.go:253-256 | A listing line whose third field is the path. No ensures: used by ListedAt and NotListed |
| ClientMountController.NotListed | mount-daemon/controllers/clientmount_controller.go:252-261 | A listing none of whose lines shows the path does not list it |
| ClientMountController.EmptyListing | mount-daemon/controllers/clientmount_controller.go:266-269 | The empty output of mock mode shows nothing mounted |
| ClientMountController.Record | mount-daemon/controllers/clientmount_controller.go:131-139 | On failure only the message changes, to the error text, and Ready is untouched. On success the message is cleared and Ready is set |
| ClientMountController.Recorded | mount-daemon/controllers/clientmount_controller.go:129-140 | After the first n outcomes, entry i < n is Record of its outcome, and every later entry is unchanged |
| ClientMountController.RecordedAppend | mount-daemon/controllers/clientmount_controller.go:135-138 | Recording one more outcome changes exactly one entry |
| ClientMountController.FirstErrorMeaning | mount-daemon/controllers/clientmount_controller.go:128-142 | No error iff every mount succeeded. Otherwise the earliest failing mount's error is reported |
| ClientMountController.FirstErrorAppend | mount-daemon/controllers/clientmount_controller.go:131-134 | A later error replaces no earlier one |
| ClientMountController.FirstError | mount-daemon/controllers/clientmount_controller.go:128-142 | The earliest error of a sweep. No ensures: its meaning is FirstErrorMeaning |
| ClientMountController.Without | mount-daemon/controllers/clientmount_controller.go:75 | Removing the finalizer leaves every other finalizer and no copy of it |
| ClientMountController.Resized | mount-daemon/controllers/clientmount_controller.go:84-86 | A status of the wrong length is replaced by zeroed entries, one per mount. A status of the right length is kept |
| ClientMountController.Restarted | mount-daemon/controllers/clientmount_controller.go:89-94 | Every entry gets the desired state, not ready, and no message |
| ClientMountController.RecordOutcome | mount-daemon/controllers/clientmount_controller.go:131-139 | Entry i becomes Record of its outcome. Nothing else in the resource changes |
| ClientMountController.Fold | mount-daemon/controllers/clientmount_controller.go:129-140 | One error slot per swept mount |
| ClientMountController.FoldLast | mount-daemon/controllers/clientmount_controller.go:129-140 | The last mount of a sweep adds its commands and its error at the end |
| ClientMountController.FoldPrefix | mount-daemon/controllers/clientmount_controller.go:129-140 | A shorter sweep is a prefix of a longer one, in commands and in errors |
| ClientMountController.FoldTriesAll | mount-daemon/controllers/clientmount_controller.go:129-140 | Mount i runs right after the commands of the mounts before it, and its error is slot i, whatever the earlier outcomes |
| ClientMountController.Reconciler.constructor | mount-daemon/controllers/clientmount_controller.go:265-274 | A reconciler that has issued no command |
| ClientMountController.Reconciler.Answer | mount-daemon/controllers/clientmount_controller.go:265-274 | In mock mode every command gives no output and no error |
| ClientMountController.Reconciler.Sweep | mount-daemon/controllers/clientmount_controller.go:128-142 | One error slot per swept mount |
| ClientMountController.Reconciler.StepCommands | mount-daemon/controllers/clientmount_controller.go:146-225 | A mount or unmount issues, in order, a prefix of `mount` then `mkdir -p <path>`, `mount -t <type> <device> <path>`, or `mount` then `umount <path>`. It issues only the listing, successfully, when already in the wanted state. It goes past the listing only when listing succeeded |
| ClientMountController.Reconciler.Step | mount-daemon/controllers/clientmount_controller.go:146-225 | What mount or unmount does to one mount: the listing, then mkdir and mount, or umount, as each answer decides. No ensures: its meaning is StepCommands and MockSteps |
| ClientMountController.Reconciler.MockSteps | mount-daemon/controllers/clientmount_controller.go:266-269 | In mock mode a mount issues all three commands and succeeds, and an unmount only lists |
| ClientMountController.Reconciler.SweepTriesAll | mount-daemon/controllers/clientmount_controller.go:128-142 | mountAll and unmountAll try every mount however many fail: mount i runs after the commands of the mounts before it, and its error is slot i |
| ClientMountController.Reconciler.SweepLast | mount-daemon/controllers/clientmount_controller.go:129-140 | The last mount adds its commands and error at the end |
| ClientMountController.Reconciler.SweepAdvance | mount-daemon/controllers/clientmount_controller.go:129-140 | One more mount extends the sweep by its commands and its error |
| ClientMountController.Reconciler.MockUnmountSweep | mount-daemon/controllers/clientmount_controller.go:125-143 | In mock mode unmountAll issues one listing per mount and reports no error |
| ClientMountController.Reconciler.Run | mount-daemon/controllers/clientmount_controller.go:265-274 | The command is logged, and the answer is the shell's, or ("", nil) in mock mode |
| ClientMountController.Reconciler.GetDevice | mount-daemon/controllers/clientmount_controller.go:228-243 | For Lustre, each address followed by `:`, then "/" and the file system name. For any other type, "" with no error |
| ClientMountController.Reconciler.CheckMount | mount-daemon/controllers/clientmount_controller.go:246-262 | Issues `mount`. A listing error gives (false, err). Otherwise the result is true iff some line has at least three fields with the path as the third |
| ClientMountController.Reconciler.MountOne | mount-daemon/controllers/clientmount_controller.go:189-225 | The commands and error of Step for a mount |
| ClientMountController.Reconciler.UnmountOne | mount-daemon/controllers/clientmount_controller.go:146-165 | The commands and error of Step for an unmount |
| ClientMountController.Reconciler.SweepAll | mount-daemon/controllers/clientmount_controller.go:125-143 | The commands of the whole sweep are issued. Entry i records mount i's outcome. The result is the first error. Spec and finalizers are unchanged |
| ClientMountController.Reconciler.SweepNext | mount-daemon/controllers/clientmount_controller.go:129-140 | One iteration keeps the sweep invariant |
| ClientMountController.Reconciler.SweepStep | mount-daemon/controllers/clientmount_controller.go:130 | Mount or unmount, by direction |
| ClientMountController.Reconciler.ReconcileBody | mount-daemon/controllers/clientmount_controller.go:63-122 | Equals `BodyOf` of the state it read: every branch, with its commands, status, finalizers and result. (1) Deletion without the finalizer does nothing. (2) Deletion with it unmounts all and removes the finalizer only after a clean sweep, returning the Update error. (3) A state mismatch restarts every entry and returns. (4) A missing finalizer is added, with a requeue only on a failed Update. (5) Otherwise mountAll or unmountAll runs by the desired state, returning its first error, and any other state does nothing |
| ClientMountController.Reconciler.Reconcile | mount-daemon/controllers/clientmount_controller.go:44-122 | The commands issued, the new status, the new finalizers and the body's result are those of `BodyOf`, in every branch. Then the deferred status write happens only when the body returned no error and the status differs from the snapshot, and a conflict counts as success |
| ClientMountController.Reconciler.BodyOf | mount-daemon/controllers/clientmount_controller.go:63-122 | The reconcile loop's outcome per branch: commands, status, finalizers and result. The status keeps its length on deletion and has one entry per spec mount otherwise |
| ClientMountController.Reconciler.BodyReleasesFinalizer | mount-daemon/controllers/clientmount_controller.go:69-80 | A deleted ClientMount loses its finalizer iff every unmount succeeded, and only then is the Update error returned |
| ClientMountController.Reconciler.BodySweepReady | mount-daemon/controllers/clientmount_controller.go:106-121 | A mount or unmount sweep that returns no error leaves every status entry ready with no message, and keeps the finalizers |
| ClientMountController.Reconciler.Close | mount-daemon/controllers/clientmount_controller.go:288-297 | Writes iff the status differs from the snapshot. The error is the write's, with a conflict counting as success |
| ClientMountController.CloseError | mount-daemon/controllers/clientmount_controller.go:290-293 | An error exactly for a failed write other than a conflict |
| ClientMountController.AfterClose | mount-daemon/controllers/clientmount_controller.go:56-61 | The deferred close runs only when the body returned no error and writes only a changed status. It keeps the requeue flag and the body's error |
| StatusUpdaters.Client.constructor | api/v1alpha1/status_updater.go:68-70 | A writer with its answer and no writes |
| StatusUpdaters.Client.Update | api/v1alpha1/status_updater.go:68-70 | Records one write on the channel and gives its answer |
| StatusUpdaters.Outcome | api/v1alpha1/status_updater.go:72-81 | close fails exactly when the status changed and the write failed with something other than a conflict, and then with that error. An unchanged status always gives nil |
| StatusUpdaters.Writes | api/v1alpha1/status_updater.go:73-74 | One write, of the current status on the chosen channel, when the status changed, and none otherwise |
| StatusUpdaters.CountOnAppend | utils/updater/status_updater_test.go:67-87 | Counting writes per channel splits over concatenation |
| StatusUpdaters.WritesOnlyThrough | api/v1alpha1/status_updater.go:56-66 | close adds exactly one write on its channel when the status changed and none otherwise. It never adds one on the other channel |
| StatusUpdaters.QuietOutcomes | api/v1alpha1/status_updater.go:74-80 | Unchanged, conflict and success all give nil |
| StatusUpdaters.StatusUpdater.constructor | api/v1alpha1/status_updater.go:46-51 | NewStatusUpdater keeps the resource and a copy of its status that later changes to the resource do not affect |
| StatusUpdaters.StatusUpdater.Close | api/v1alpha1/status_updater.go:72-81 | Writes through the channel exactly when the status changed, and returns Outcome |
| StatusUpdaters.StatusUpdater.CloseWithUpdate | api/v1alpha1/status_updater.go:56-58 | close through the object writer |
| StatusUpdaters.StatusUpdater.CloseWithStatusUpdate | api/v1alpha1/status_updater.go:64-66 | close through the status writer |
| StatusUpdaters.Scenario | utils/updater/status_updater_test.go:104-124 | The test's scenario: exactly one write, on the chosen channel, when the status was changed after creating the updater, and none otherwise. The snapshot keeps the status at creation |
| Conversion.UnmarshalData | api/v1alpha1/conversion.go:46-49 | The annotation read fails exactly on a malformed annotation. It finds a hub exactly when one was recorded, and then returns that hub |
| Conversion.ErrConvertFrom | api/v1alpha1/conversion.go:66-87 | ClientMount, DirectiveBreakdown and PersistentStorageInstance down: the error is present iff the hub's is, with its messages, and it is recoverable iff its severity is not Fatal. The hub goes into the annotation |
| Conversion.AutoErrorTo | api/v1alpha1/conversion.go:40 | The generated converter up: the messages, with type and severity unset. No ensures: used by ErrConvertToMeaning |
| Conversion.AutoErrorFrom | api/v1alpha1/conversion.go:70 | The generated converter down: the messages, with the flag unset. No ensures: used by ErrConvertFrom |
| Conversion.AutoErrSpokeTo | api/v1alpha1/conversion.go:40 | The generated part of ConvertTo. No ensures: used by ErrConvertToMeaning |
| Conversion.FatalOverride | api/v1alpha1/conversion.go:59-61 | An error that is not recoverable becomes fatal, whatever was restored. No ensures: used by ErrConvertToMeaning |
| Conversion.ErrConvertToAsWritten | api/v1alpha1/conversion.go:36-64 | ConvertTo as written, with its nil dereference as a panic. No ensures: its meaning is ErrConvertToPanics and ErrConvertToAgrees |
| Conversion.ErrConvertTo | api/v1alpha1/conversion.go:36-64 | ConvertTo, with the copy from the annotation guarded by the spoke's error. No ensures: its meaning is ErrConvertToMeaning and ErrRoundTrip |
| Conversion.ErrConvertToPanics | api/v1alpha1/conversion.go:55-58 | A spoke with no error whose annotation recorded a hub with one makes the written ConvertTo dereference a nil error |
| Conversion.ErrConvertToAgrees | api/v1alpha1/conversion.go:36-64 | The written ConvertTo panics exactly in that case, and agrees with the guarded conversion everywhere else |
| Conversion.ErrConvertToMeaning | api/v1alpha1/conversion.go:36-64 | Up: fails only on an undecodable annotation. The messages come from the spoke. Type and severity come from the recorded error when there is one and are unset otherwise. An unrecoverable error is Fatal whatever was restored |
| Conversion.ErrRoundTrip | api/v1alpha1/conversion_test.go:31-76 | Down then up gives back the hub |
| Conversion.ServersConvertFrom | api/v1alpha1/conversion.go:287-297 | The shared fields are copied, and the hub goes into the annotation |
| Conversion.ServersConvertTo | api/v1alpha1/conversion.go:257-285 | Servers ConvertTo. No ensures: its meaning is ServersConvertToMeaning and ServersRoundTrip |
| Conversion.ServersConvertToMeaning | api/v1alpha1/conversion.go:257-285 | Without an annotation there is no error field. With one, the error is exactly the recorded one, rebuilt field by field |
| Conversion.ServersRoundTrip | api/v1alpha1/conversion_test.go:31-76 | Down then up gives back the Servers hub |
| Conversion.StorageConvertFrom | api/v1alpha1/conversion.go:321-331 | The shared fields are copied, and the hub goes into the annotation |
| Conversion.StorageConvertTo | api/v1alpha1/conversion.go:299-319 | The mode is unset without an annotation and the recorded one with it. It fails only on a malformed annotation |
| Conversion.StorageRoundTrip | api/v1alpha1/conversion_test.go:31-76 | Down then up gives back the Storage hub |
| Conversion.Wrap32 | api/v1alpha1/conversion.go:425 | Go's int32 narrowing: the value itself when it fits, and otherwise the value congruent modulo 2^32 |
| Conversion.IntValue | api/v1alpha1/conversion.go:439 | An int gives itself, and a decimal string gives its value. The result is always a 64-bit int |
| Conversion.WorkflowConvertFrom | api/v1alpha1/conversion.go:431-443 | The shared fields are copied, the hub goes into the annotation, and an int job ID is copied as is |
| Conversion.WorkflowConvertTo | api/v1alpha1/conversion.go:404-429 | The recorded job ID with an annotation, and FromInt of the spoke's otherwise |
| Conversion.WorkflowRoundTrip | api/v1alpha1/conversion_test.go:31-76 | Down then up gives back the hub, a string job ID included |
| Conversion.WorkflowJobIDNarrows | api/v1alpha1/conversion.go:422-426 | Without an annotation a spoke job ID survives up and down exactly when it fits an int32. 2^31 comes back as -2^31 |
| Conversion.ExternalNames | api/v1alpha1/conversion.go:391-397 | The names of the external compute nodes, in order |
| Conversion.ComputeNodes | api/v1alpha1/conversion.go:391-397 | One compute node per name, in order |
| Conversion.SpokeComputes | api/v1alpha1/conversion.go:391-401 | The storage-attached compute names, then the external ones, in order |
| Conversion.SysConvertFrom | api/v1alpha1/conversion.go:377-402 | The append loops give exactly SpokeComputes. Everything else is copied, and no annotation is written |
| Conversion.ExternalNodes | api/v1alpha1/conversion.go:366-372 | One external node per name, in order |
| Conversion.FindExternalComputes | api/v1alpha1/conversion.go:360-364 | The spoke's compute names not found through its storage nodes, in order. No ensures: its meaning is NotInAllExcluded, NotInNoneExcluded and SysRoundTripLosesShared |
| Conversion.SysConvertTo | api/v1alpha1/conversion.go:333-375 | With an annotation, the ports cool-down and external nodes are the recorded ones. Without one, there is one external node per FindExternalComputes name, in order, through the index loop |
| Conversion.NotInAllExcluded | api/v1alpha1/conversion.go:360-364 | Filtering names that are all excluded leaves nothing |
| Conversion.NotInNoneExcluded | api/v1alpha1/conversion.go:360-364 | Filtering names none of which is excluded keeps them all |
| Conversion.ComputeNodesSnoc | api/v1alpha1/conversion.go:391-397 | One more name adds one more node at the end |
| Conversion.ComputeNodesAppend | api/v1alpha1/conversion.go:391-397 | Nodes of a concatenation are the concatenated nodes |
| Conversion.NotInAppend | api/v1alpha1/conversion.go:360-364 | Filtering splits over concatenation |
| Conversion.SysRoundTrip | api/v1alpha1/conversion.go:351-401 | Down then up without an annotation gives back the hub whenever no external compute shares a name with a storage-attached one |
| Conversion.SysRoundTripLosesShared | api/v1alpha1/conversion.go:360-364 | An external compute named like a storage-attached one is lost on the way back |
| Conversion.ListConvert | api/v1alpha1/conversion.go:450-524 | Every list conversion refuses with MethodNotSupported in the "dws" group |
| Conversion.ListErrorsName | api/v1alpha1/conversion.go:454-524 | Each list conversion's error names its own kind and direction, and no two coincide |

## Left out

- Kubernetes plumbing is left out: `r.Get`, the finalizer helpers, event
  watches and manager setup. The answers of `r.Update` and
  `Status().Update` become parameters (`updateErr`, `statusErr`) of the
  ClientMount reconciler. The status updater's client is a class with a
  fixed answer and a log of writes.
- The host shell (`exec.Command("bash", "-c", c)`) is a function from the
  commands run so far and the next command to its output and error. The
  model does not say which commands a real host accepts.
- Logging is left out, except SetResourceErrorAndLog's choice of entry,
  which is modelled as a returned value (`EntryFor`).
- `regexp.MatchString` with a rule's pattern is an uninterpreted
  `Matcher`. It answers matched, not matched, or a pattern that does not
  compile.
- `strings.ToLower` is modelled for ASCII letters only. Go also folds
  other Unicode letters. The `(?i)` bool matcher is modelled on its own
  (`DwdParse.IsBoolWord`), with Go's simple case folding for the letters
  of true and false, whose only non-ASCII partner is `ſ` for `s`.
- `CheckArguments`, `CheckRequired` and `ValidateArgs` (both parsers): Go
  visits a map in an unspecified order, and the model leaves it open the
  same way. So the contracts say whether a call fails, not which error is
  reported. After a failure, they bound which unique names were inserted,
  without saying which.
- Go panics are preconditions, not modelled behaviour:
  - a directive that is `#DW` alone, in both parsers
    (utils/dwdparse/dwdparse.go:100, pkg/utils/dwdparse/dwdparse.go:38);
  - a blank directive in the old parser (pkg/utils/dwdparse/dwdparse.go:37);
  - an empty `Spec.Mounts` on a ClientMount that is not being deleted
    (mount-daemon/controllers/clientmount_controller.go:89). A deleted one
    returns before reading the status, and its empty spec unmounts nothing;
  - a deleted ClientMount that still holds the finalizer and whose status
    is shorter than its spec, which unmountAll indexes before any resizing
    (mount-daemon/controllers/clientmount_controller.go:135). Without the
    finalizer the deletion returns at lines 65-67, whatever the status.
- `DwdParse.Parsable` and `LegacyDwdParse.Parsable` exclude a whole list
  of directives when any one of them is `#DW` alone (or, in the old parser,
  blank). Go may return an earlier directive's error before it reaches the
  one that panics, for example `["bad", "#DW"]` in the old parser, and the
  model does not cover those lists either.
- `GetParserRules` and the rule fetch of `ValidateDWDirectives` are left
  out because they use an in-cluster REST client. The rules are passed to
  `LegacyDwdParse.ValidateDirectives` instead.
- Conversions: the generated `Convert_*` functions are modelled only by
  their effect on the fields the hand-written code touches. Every field the
  two versions share is a type parameter copied unchanged. `MarshalData`
  and `UnmarshalData` (JSON in an annotation) are an `Annotation` value:
  missing, a recorded hub, or malformed.
- Computes and DWDirectiveRule conversions (api/v1alpha1/conversion.go:89-151)
  are left out. Their hand-written code only reads the annotation and
  restores nothing, so they are the Storage pattern without a field.
- `Computes()`, `ComputesExternal()` and `FindExternalComputes()` are not
  part of this model's sources. The storage-attached computes are a field
  of the hub. `FindExternalComputes` is modelled from the comment at
  api/v1alpha1/conversion.go:360-364, as the spoke computes not found
  through the storage nodes.
- `intstr.IntOrString` is reduced to its two cases. `IntValue` of a string
  uses the number `strconv.Atoi` returns beside its error.
- Conversion.ListConvert: the text of apimachinery's MethodNotSupported
  error is not modelled, only its group, resource and action.
- The deep copy taken by `NewStatusUpdater` and `newClientMountStatusUpdater`
  is modelled as value semantics. Statuses are datatypes, so the snapshot
  cannot alias the resource.
- Some sources have tests but no implementation in this model's sources:
  `Ports` and `PortIterator` validation, `SeverityStringToStatus`/`ToStatus`,
  and the Workflow webhook transition rules. They are left out.
- The `failUnknownCommand` argument exercised by
  utils/dwdparse/dwdparse_test.go has no implementation in the source, so
  only the test rows for the three-argument behaviour inform the model.
- `conduit/validate.py`, the CLI tools and the daemons' `main` functions
  are left out. They hold no logic beyond library calls and flag parsing.

Differences between the two parsers, proved as lemmas rather than
reported as defects because each looks deliberate:

- the old parser keeps the last value of a repeated key, where the new one
  refuses it (`LegacyDwdParse.ParsersAgree`);
- the old parser never checks required arguments
  (`LegacyDwdParse.RequiredNeverChecked`);
- the old parser accepts six boolean spellings, where the new one accepts
  any casing, and `ſ` for `s` (`LegacyDwdParse.BoolFormsNarrower`).

## Findings

| source | as written | input that shows it | evidently intended | confidence | as-written member | corrected member |
|---|---|---|---|---|---|---|
| api/v1alpha1/conversion.go:55-58 (and 172-175, 224-227) | When the annotation recorded a hub with an error, ConvertTo copies its type and severity into `dst.Status.Error` without checking that the converted spoke has an error. A spoke whose error was cleared after down-conversion dereferences nil | A spoke with `Status.Error == nil` whose data annotation holds a hub with `Status.Error` set, e.g. `{UserMessage: "failed", Type: "User", Severity: "Major"}` | Copy the recorded type and severity only when `dst.Status.Error != nil` | not executed | Conversion.ErrConvertToPanics | Conversion.ErrRoundTrip |
