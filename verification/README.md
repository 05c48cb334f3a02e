# go-iptables rules and sync, modelled in Dafny

This project models the rule core of the Go library go-iptables:

- the `Rule` object (rule.go): its construction, defaults, serialisation to
  an `iptables` command line, validation, execution through Append, Insert,
  Replace and Delete, parsing of a line of `iptables -S` output, the
  app/marker/match setters and Update;
- the table synchronisation (sync.go): listing every table for ipv4 and
  ipv6, reading each `-A`/`-I` line into a rule numbered per chain, and
  labelling every rule that has no id;
- the jump and DSCP targets (target_jump.go, target_dscp.go).

Layout:

| file | module | contents |
|---|---|---|
| wrappers.dfy | Wrappers | `Option` and `Result` |
| strings.dfy | Strings | the parts of Go's `strings` and `strconv` the core uses (Fields, Split, Join, Replace, ReplaceAll, Contains, Itoa) |
| vocabulary.dfy | Vocabulary | IP versions, protocols, tables, commands, the negation prefix |
| matches.dfy | Matches | comment and generic matches, markers |
| targets.dfy | Targets | the target variants; jump and DSCP behaviour |
| rule_data.dfy | RuleModel | `RuleData` (the value of a rule), errors, `Env`, defaults |
| rule_text.dfy | RuleText | the segments of `Rule.String` and their layout |
| rule_exec.dfy | RuleExec | `Validate`, `execute` and the four commands, as functions |
| rule_parse.dfy | RuleParse | the parse loop of `Rule.Parse`, one step at a time |
| parse_props.dfy | ParseProperties | what the parser reads back from the segments the serialiser writes, and from a listing line |
| rule_update.dfy | RuleUpdate | `Update` as written, and the merge it evidently means |
| rule.dfy | Rules | `class Rule`: the Go object, every method proved against the functions above |
| sync_model.dfy | SyncModel | Sync and LabelRules as functions, with their properties |
| sync.dfy | RuleSync | `Sync` and `LabelRules` as methods over `Rule` objects, proved against SyncModel |

A rule is a `class Rule` whose fields are the fields of the Go struct that
the core reads or writes. `Data()` reads them as a `RuleData` value. Each
method's `ensures` gives the new state and the result as a function of
`old(Data())`. The properties are then proved about those functions.

Everything the core takes from outside the process is a field of `Env`:

- the binary path per IP version;
- the command executor (an oracle from command text to output or error);
- the root check;
- snapshots of the ids and names already in use (IdExists, NameExists);
- the list of tables;
- `strconv.Quote`;
- the text and validation of the target variants whose code is not part of
  this model.

The id generator of LabelRules (`uuid.New`) is a parameter `nextId: nat -> string`.
The n-th rule without an id receives `nextId(n)`.

A Go panic becomes an error value:

- `Truncated`: a flag in a listing line is missing its arguments (an index
  out of range).
- `NilTarget`: `Validate` runs on a rule without a target (a nil interface).

Where the code's behaviour differs from what its names suggest, the model
follows the code:

- Line 466 of rule.go writes the source negation into `OutputNegated`, not
  into the destination negation.
- The constant `IPv4` holds the text `"ipv6"` and `IPv6` holds `"ipv4"`.
  Both are kept as written. Sync tags its passes with the literals `"ipv4"`
  and `"ipv6"`.
- A negated comment match (`-m comment ! --comment …`) goes down the generic
  branch. After the `!` is skipped, line 297 looks at the field that held the
  `!`.

## Model

| member | source | states |
|---|---|---|
| Targets.JumpString | target_jump.go:29-31 | the text starts with `--jump ` and the rest is exactly the value |
| Targets.Target.Validate | target_dscp.go:21-27 | a jump target always validates; a DSCP target fails exactly when the rule's table is not mangle |
| Targets.Target.Parse | target_jump.go:38-40 | Parse of a jump or DSCP target leaves the target unchanged |
| Targets.DscpString | target_dscp.go:14-18 | a DSCP target prints as `--jump DSCP --set-dscp <value>` |
| Targets.DscpClass.Valid | target_dscp.go:44-47 | a DSCP class is valid exactly on the mangle table |
| Targets.DscpClass.Parse | target_dscp.go:49-51 | Parse leaves the DSCP class unchanged |
| RuleModel.Defaulted | rule.go:61-78 | afterwards the IP version, target and command are all set; each empty one gets IPv4, jump ACCEPT or append; every other field is kept, and an already complete rule is unchanged |
| RuleModel.DefaultedIdempotent | rule.go:61-78 | filling in defaults twice is the same as once |
| RuleModel.NewRuleData | rule.go:11-26 | a new rule has the given id and the name if one is given, the defaults, no markers or matches, and is neither valid nor applied |
| RuleModel.WithApp | rule.go:430-440 | SetApp appends the marker `app:<app>` and a comment match with the text `app:<app>`, and changes nothing else |
| Rules.Rule.Zero | rule.go:12 | a zero rule holds Go's zero `Rule{}` |
| Rules.Rule.New | rule.go:11-26 | the new object holds `NewRuleData(id, name)` |
| Rules.Rule.SetIdentity | rule.go:13-17 | sets the id, and the name when one is given |
| Rules.Rule.SetDefaults | rule.go:61-78 | the new state is `Defaulted` of the old one |
| Rules.Rule.FillDefaults | rule.go:63-77 | each of IP version, target and command gets its default only when empty |
| Rules.Rule.SetState | rule.go:80-83 | only the valid and applied flags change |
| Rules.Rule.Validate | rule.go:212-235 | returns `Validation` of the rule: target check, duplicate id for append and insert only, duplicate name, root, in that order |
| Rules.Rule.String | rule.go:127-210 | fills in the defaults, then returns `CommandLine` of the defaulted rule |
| Rules.Rule.CommandText | rule.go:137-151 | the table, command, chain and position segments |
| Rules.Rule.CriteriaText | rule.go:153-186 | the protocol, address, port and interface segments, each only when set |
| Rules.Rule.AppendIfSet | rule.go:153-186 | a segment is added exactly when its value is non-empty |
| Rules.Rule.MatchesText | rule.go:188-195 | one segment per match, in order; only a comment's value is quoted |
| Rules.Rule.IdentityText | rule.go:197-203 | the id and name comment segments, each only when set |
| Rules.Rule.Execute | rule.go:85-102 | state and error are those of `Executed` |
| Rules.Rule.Append | rule.go:409-412 | command append, then execute |
| Rules.Rule.Insert | rule.go:414-418 | command insert at the given position, then execute |
| Rules.Rule.Replace | rule.go:420-423 | command replace, then execute |
| Rules.Rule.Delete | rule.go:425-428 | command delete, then execute |
| Rules.Rule.SetApp | rule.go:430-440 | the new state is `WithApp` of the old one |
| Rules.Rule.SetName | rule.go:442-444 | only the name changes |
| Rules.Rule.SetId | rule.go:446-448 | only the id changes |
| Rules.Rule.AddMarker | rule.go:450-452 | the marker is appended and nothing else changes |
| Rules.Rule.AddMatch | rule.go:454-456 | the match is appended and nothing else changes |
| Rules.Rule.SetNumber | sync.go:52 | only the rule number changes |
| Rules.Rule.Update | rule.go:458-473 | the new state is `UpdateAsWritten(old state, u)` |
| Rules.Rule.UpdateInterfaces | rule.go:459-464 | the name and interface group of `UpdateAsWritten` |
| Rules.Rule.CopyInterfaceFields | rule.go:459-464 | each non-empty name or interface is copied; each negation is or-ed in |
| Rules.Rule.UpdateSource | rule.go:465-468 | the source group of `UpdateAsWritten` |
| Rules.Rule.CopySourceFields | rule.go:465-468 | the source and source port are copied when set; the source negation is or-ed into the output negation |
| Rules.Rule.UpdateDestination | rule.go:469-472 | the destination group of `UpdateAsWritten` |
| Rules.Rule.CopyDestinationFields | rule.go:469-472 | a set destination negation copies the port negation of `u` |
| Rules.Rule.Parse | rule.go:237-407 | the new state and error are those of `ParseLine` |
| Rules.Rule.ParseField | rule.go:247-403 | one loop iteration, as `ParseStep`: a truncated flag leaves the state and reports it |
| Rules.Rule.SetCriterionField | rule.go:255-277 | the state becomes `SetCriterion` of the old one |
| Rules.Rule.SetSource | rule.go:258-261 | only the source and its negation change |
| Rules.Rule.SetDestination | rule.go:262-265 | only the destination and its negation change |
| Rules.Rule.SetInput | rule.go:266-269 | only the input interface and its negation change |
| Rules.Rule.SetOutput | rule.go:270-273 | only the output interface and its negation change |
| Rules.Rule.SetProtocol | rule.go:274-277 | only the protocol and its negation change |
| Rules.Rule.ParseMatchField | rule.go:278-346 | the `-m` case, as `ParseMatch` |
| Rules.Rule.MatchAtField | rule.go:285-346 | a match after its optional `!`, as `MatchAt` |
| Rules.Rule.SetDestinationPort | rule.go:289-291 | only the destination port and its negation change |
| Rules.Rule.SetSourcePort | rule.go:292-295 | only the source port and its negation change |
| Rules.Rule.CommentField | rule.go:297-346 | a comment match, as `CommentAt` |
| Rules.Rule.CommentWords | rule.go:299-304 | collects the words up to the next field starting with `-`, as `CommentEnd` finds it; none means the line is truncated |
| Rules.Rule.RecordCommentField | rule.go:310-343 | the state becomes `RecordComment` of the old one |
| Rules.Rule.RecordMatchField | rule.go:337-343 | the state becomes `RecordMatch` of the old one |
| Rules.Rule.ParseTargetField | rule.go:347-397 | the `-j`/`-g` case, as `ParseTarget` |
| RuleText.CriteriaInSteps | rule.go:153-186 | adding the optional criteria one at a time, in source order, gives `CriteriaSegments` |
| RuleText.MatchSegments | rule.go:188-195 | one segment per match, in order, each `MatchSegment` of its match |
| RuleText.Header | rule.go:135-186 | the header holds at least the binary path |
| RuleText.Segments | rule.go:130-207 | the binary path comes first and the target text last |
| RuleText.SegmentsInSteps | rule.go:130-207 | adding the blocks one at a time, in source order, gives `Segments` |
| RuleText.HeaderFirst | rule.go:135-186 | the segments start with the header |
| RuleText.MatchesInOrder | rule.go:188-195 | the i-th match segment follows the header at position header+i |
| RuleText.CommandBlock | rule.go:141-151 | `--<command>`, the chain and the position follow the path and the table |
| RuleText.IdBeforeNameAndTarget | rule.go:197-207 | the id comment comes after the matches and before the name comment and the target |
| RuleText.NameBeforeTarget | rule.go:201-207 | the name comment sits directly before the target |
| RuleText.CommandLine | rule.go:209 | the line starts with the binary path |
| RuleText.FlagNegation | rule.go:154-185 | a negated flag is preceded by `! `; a plain one by nothing |
| RuleText.HeaderLayout | rule.go:137-142 | `-t <table>` follows the path when a table is set, then `--<command>` |
| RuleText.NumberOnlyForInsertReplace | rule.go:148-150 | the position is written exactly for insert and replace |
| RuleExec.TargetError | rule.go:214-216 | no target gives `NilTarget`; a jump always passes; a DSCP target fails exactly off the mangle table |
| RuleExec.Validation | rule.go:212-235 | no error exactly when the target passes, the id is new or the command is not append/insert, the name is new, and the process is root; a target error comes first; a duplicate-id error exactly when the target passes and the id is in use for append/insert; a duplicate-name error exactly when the target and id checks pass and the name is in use; a not-root error exactly when every earlier check passes and the process is not root |
| RuleExec.Executed | rule.go:85-102 | a validation error returns unchanged; otherwise the command line is run, and the rule becomes valid and applied exactly when it succeeds; the id, name and matches are kept |
| RuleExec.AppliedOnlyOnSuccess | rule.go:95-101 | for a rule not yet applied, execution marks it applied exactly when it reports no error |
| RuleExec.NoDuplicateIdForReplaceOrDelete | rule.go:219-221 | replace and delete never report a duplicate id |
| RuleExec.DscpOnlyOnMangle | rule.go:214-216 | a DSCP rule validates its target exactly on the mangle table |
| RuleExec.Appended | rule.go:409-412 | execution with command append; on success the rule is applied |
| RuleExec.Inserted | rule.go:414-418 | execution with command insert and the given position |
| RuleExec.Replaced | rule.go:420-423 | execution with command replace |
| RuleExec.Deleted | rule.go:425-428 | execution with command delete |
| RuleExec.InsertCommand | rule.go:141-151 | an inserted rule's command block is `--insert`, the chain if any, then the position |
| RuleParse.KeepsTransitive | rule.go:246-404 | the fields no parse step touches stay untouched over several steps |
| RuleParse.SetCriterion | rule.go:255-277 | `-A`/`-I` set the chain; `-s`, `-d`, `-i`, `-o`, `-p` set their value and negation; nothing else changes |
| RuleParse.CommentEnd | rule.go:300-303 | the first field from `k` on that starts with `-`; every field before it does not |
| RuleParse.CommentText | rule.go:306-309 | the joined text holds no quote characters, is no longer than the words joined by spaces, and has no character they lack |
| RuleParse.CommentMarker | rule.go:310-319 | a marker is found only in a text with exactly one colon, and its text is the comment |
| RuleParse.MarkerRoundTrip | rule.go:310-319 | a marker's `name:value` text reads back as the same marker when neither part has a colon |
| RuleParse.RecordMatch | rule.go:337-343 | an `id:` comment sets the id; a `name:` comment sets the name; any other match is appended |
| RuleParse.RecordComment | rule.go:310-343 | a `name:value` comment appends its marker and then records the comment match; any other comment records only the match; chain, target, criteria and ports are untouched |
| RuleParse.SetPort | rule.go:288-295 | a `dport…` option sets the destination port; any other sets the source port |
| RuleParse.CommentAt | rule.go:297-346 | the line is truncated exactly when no later field starts with `-`; otherwise parsing goes on at the first such field, and the words before it are recorded as the comment; chain, target, criteria and ports are untouched |
| RuleParse.MatchAt | rule.go:285-346 | a tcp/udp `dport`/`sport` option sets that port and goes on four fields later; a `comment` match reads its words; any other match is recorded as a generic match, option without its first `--`, four fields later; chain, target and criteria are untouched |
| RuleParse.ParseMatch | rule.go:278-346 | fewer than four fields from `-m` truncate the line; a `!` after the match name negates the match and shifts it one field on; chain, target and criteria are untouched |
| RuleParse.ParseTarget | rule.go:347-397 | `-j`/`-g` of a plain name sets a jump/goto and goes on two fields later; DNAT and SNAT keep their option and value and DSCP becomes class 0, four fields later; MASQUERADE takes `--to-ports <ports>` when present, else nothing; a missing argument truncates the line |
| RuleParse.ParseFlag | rule.go:253-403 | an unknown field is skipped one position on and changes nothing |
| RuleParse.FlagDispatch | rule.go:253-397 | a criterion flag sets its value with the negation two fields on, or truncates the line; `-m` reads a match; `-j`/`-g` read a target |
| RuleParse.ParseStep | rule.go:247-403 | one iteration moves forward |
| RuleParse.StepNegation | rule.go:247-253 | a `!` negates only the flag right after it, and a trailing `!` truncates the line |
| RuleParse.ParseFrom | rule.go:246-404 | the only error the loop reports is `Truncated` |
| RuleParse.ParseLine | rule.go:237-407 | an unknown table is reported and clears the table and the valid flag; otherwise the table is set and the loop runs |
| RuleParse.SkipsUnknown | rule.go:399-403 | a run of unknown fields leaves the rule unchanged and reports no error |
| ParseProperties.CommentTextOfWord | rule.go:306-309 | a word without quotes passes through quote stripping unchanged |
| ParseProperties.QuotedCommentText | rule.go:306-309 | a double-quoted word loses its quotes |
| ParseProperties.CommentTextOfWords | rule.go:306-309 | words without quotes come through joined by single spaces |
| ParseProperties.QuotedWordsText | rule.go:306-309 | a comment quoted across two words loses its quotes and keeps the space between them |
| ParseProperties.TwoColonsNoMarker | rule.go:310-319 | a comment with two colons records no marker |
| ParseProperties.CommentFields | rule.go:198 | the comment segment splits into `-m comment --comment <text>` |
| ParseProperties.CommentMatchStep | rule.go:297-346 | `-m comment --comment` reads the words up to the next flag |
| ParseProperties.CommentStep | rule.go:297-346 | a one-word comment followed by a flag is read into the rule and parsing goes on at that flag |
| ParseProperties.MarkerComment | rule.go:310-319 | a `name:value` comment records that marker |
| ParseProperties.IdRecorded | rule.go:337-338 | an `id:<id>` comment records an `id` marker and sets the id |
| ParseProperties.NameRecorded | rule.go:339-340 | a `name:<name>` comment records a `name` marker and sets the name |
| ParseProperties.AppRecorded | rule.go:341-343 | an `app:<app>` comment records an `app` marker and keeps the comment as a match |
| ParseProperties.IdCommentParsed | rule.go:197-199 | the id segment String writes is read back by Parse as the id and an `id` marker |
| ParseProperties.NameCommentParsed | rule.go:201-203 | the name segment String writes is read back as the name and a `name` marker |
| ParseProperties.AppCommentParsed | rule.go:430-440 | the app comment SetApp adds is read back as the same marker and match |
| ParseProperties.QuotedIdParsed | rule.go:297-343 | a double-quoted `id:<id>` comment, as listings print it, is read back as the id |
| ParseProperties.CriterionStep | rule.go:255-277 | a one-value flag, plain or after `!`, sets its value with the negation |
| ParseProperties.ListingCriteria | rule.go:255-277 | `-A <chain> -s <src> ! -d <dst> -p <proto>` sets the chain and criteria, with only the destination negated |
| ParseProperties.JumpStep | rule.go:347-397 | `-j <name>` sets a jump to that name |
| ParseProperties.GotoStep | rule.go:347-397 | `-g <name>` sets a goto to that name and parsing goes on two fields later |
| ParseProperties.MasqueradeStep | rule.go:374-382 | `-j MASQUERADE` followed by another flag takes no argument |
| ParseProperties.DscpStep | rule.go:369-373 | `-j DSCP --set-dscp 0x10` consumes four fields and records DSCP class 0 |
| ParseProperties.NegatedPortStep | rule.go:278-346 | `-m tcp ! --dport 80` sets a negated destination port 80 and goes on at field 5 |
| ParseProperties.GenericMatchStep | rule.go:278-346 | `-m state --state NEW` is kept as a generic match with option `state` |
| ParseProperties.JumpCloses | rule.go:347-358 | a closing `-j <name>` ends the parse with that jump as the target |
| ParseProperties.QuotedIdFrom | rule.go:297-346 | a quoted id comment followed by a flag sets the id and its marker and parsing goes on four fields later |
| ParseProperties.ListingCommentAndTarget | rule.go:297-358 | a quoted id comment and `-j ACCEPT` close the line with the id and the ACCEPT jump |
| ParseProperties.ListingLine | rule.go:237-407 | a whole `iptables -S` rule line parses into the chain, criteria, id marker, id and target |
| ParseProperties.ForwardExample | rule.go:237-407 | a concrete FORWARD line parses into the expected rule |
| RuleUpdate.UpdateAsWritten | rule.go:458-473 | only the criteria and name change; a set string is copied; the interface and port negations are or-ed in; the source negation goes to the output negation; a set destination negation copies the port negation |
| RuleUpdate.MergeIntended | rule.go:458-473 | only the criteria and name change; every set string is copied and every set flag is or-ed into its own field |
| RuleUpdate.UpdateWithZero | rule.go:458-473 | an update with an empty rule changes nothing |
| RuleUpdate.CriteriaDetermine | rule.go:458-473 | two updates of one rule that agree on the criteria are equal |
| RuleUpdate.UpdateAbsorbed | rule.go:458-473 | an update that brings nothing new leaves the rule as it is |
| RuleUpdate.UpdateIdempotent | rule.go:458-473 | updating twice with the same rule is the same as once |
| RuleUpdate.MergeIdempotent | rule.go:458-473 | the intended merge is idempotent |
| RuleUpdate.AgreeWithoutMisplacedFlags | rule.go:466-470 | without a source negation, and with a destination negation only alongside a port negation, the code and the intended merge agree |
| RuleUpdate.SourceNegationMisplaced | rule.go:466 | a negated source in the update negates the output instead; the intended merge negates the source |
| RuleUpdate.DestinationNegationLost | rule.go:470 | a negated destination in the update clears an existing destination negation; the intended merge keeps it |
| SyncModel.ListCommand | sync.go:32 | the command is the binary path followed by ` -t <table> -S` |
| SyncModel.RuleLineCount | sync.go:41 | at most one rule per line |
| SyncModel.OnChain | sync.go:48-52 | the rules of one chain, in order, as many as `CountChain` counts |
| SyncModel.ListedRule | sync.go:42-44 | a rule line read without error carries the pass's IP version and table, and is neither valid nor applied |
| SyncModel.TableRules | sync.go:38-55 | one rule per `-A`/`-I` line |
| SyncModel.TableRulesRead | sync.go:40-54 | every rule of a table comes from its pass and is numbered one past the rules of its chain before it |
| SyncModel.NumberedExtend | sync.go:48-53 | a rule numbered after its chain's earlier rules keeps the numbering per chain |
| SyncModel.RuleLineRead | sync.go:41-53 | a rule line adds its parse error or one more numbered rule |
| SyncModel.OtherLineSkipped | sync.go:41 | any other line is passed over |
| SyncModel.TableErrorPersists | sync.go:44-47 | a parse error in a prefix of the listing is the error of the whole table |
| SyncModel.ChainNumbers | sync.go:39-52 | within one table, the rules of each chain are numbered 1, 2, … in listing order |
| SyncModel.TableListing | sync.go:31-36 | a failed list command is reported |
| SyncModel.TableListingRead | sync.go:31-55 | every rule of a listed table comes from its pass and is numbered per chain |
| SyncModel.SyncTables | sync.go:29-56 | every rule of a pass comes from that IP version and one of the tables |
| SyncModel.SyncVersions | sync.go:21-58 | every rule comes from one of the versions and tables |
| SyncModel.SyncAll | sync.go:12-61 | non-root is refused; every rule comes from ipv4 or ipv6 and one of the listed tables |
| SyncModel.PassStep | sync.go:29-56 | a successful pass is the pass over the earlier tables followed by the last table's listing |
| SyncModel.PassConcatenation | sync.go:29-56 | a successful pass listed every table, and its rules are the tables' listings one after the other, in table order |
| SyncModel.VersionStep | sync.go:21-58 | a successful sync is the earlier versions' rules followed by the last version's pass |
| SyncModel.SyncInOrder | sync.go:18-60 | a successful sync returns the ipv4 pass followed by the ipv6 pass |
| SyncModel.CountListedAppend | sync.go:39-52 | counting rules of one version, table and chain adds up over two runs |
| SyncModel.ListingNumbered | sync.go:38-53 | one table's listing, numbered per chain, is numbered per version, table and chain |
| SyncModel.JoinNumbered | sync.go:39-53 | joining numbered runs of different versions or tables keeps the numbering, since each table's counters start afresh |
| SyncModel.PassNumbered | sync.go:29-56 | over distinct tables, every rule of a pass is numbered one past the earlier rules of its table and chain |
| SyncModel.SyncNumbered | sync.go:12-61 | over distinct tables, every rule Sync returns is numbered one past the earlier rules of the same IP version, table and chain |
| SyncModel.PassErrorPersists | sync.go:33-36 | an error in a prefix of the tables is the error of the pass |
| SyncModel.SyncErrorPersists | sync.go:21-58 | an error in a prefix of the versions is the error of the sync |
| SyncModel.TableErrorAbortsPass | sync.go:33-36 | one failing table makes the whole pass fail |
| SyncModel.PassErrorAbortsSync | sync.go:21-58 | one failing pass makes the whole sync fail |
| SyncModel.UnlabelledCount | sync.go:68-70 | the ids handed out before a position are at most the rules before it |
| SyncModel.CountMonotone | sync.go:68-70 | an earlier rule without an id gets an earlier id |
| SyncModel.LabelOne | sync.go:69-76 | a labelled rule has the new id, the replace command and its defaults; its name, matches, chain and table are kept; it is applied when the replace succeeds |
| SyncModel.LabelledAt | sync.go:68-78 | a rule with an id is untouched; the k-th rule without one gets `nextId(k)` |
| SyncModel.EveryRuleLabelled | sync.go:68-78 | if the generator never yields an empty id, every rule has an id afterwards |
| SyncModel.FreshIdsDistinct | sync.go:68-78 | if the generator never repeats, any two labelled rules get different ids |
| RuleSync.SyncTable | sync.go:31-55 | the rule objects read from one table hold `TableListing`, or the error with no rules; all fresh and distinct |
| RuleSync.ReadLine | sync.go:41-54 | one line of the listing extends the rules as `TableRules` does |
| RuleSync.ReadRuleLine | sync.go:42-53 | one rule line adds one fresh rule, or reports its parse error |
| RuleSync.ParseListed | sync.go:42-44 | a fresh rule object holding `ListedRule` |
| RuleSync.ReadRule | sync.go:42-52 | the rule is numbered one past its chain's earlier rules, and the chain counters are updated |
| RuleSync.Bump | sync.go:48-51 | the chain's counter, or zero when absent, goes up by one |
| RuleSync.SyncPass | sync.go:29-56 | the objects of one IP version hold `SyncTables`, or the error with no rules |
| RuleSync.SyncNextTable | sync.go:29-56 | the next table's listing, `TableListing`, is appended after the rules read so far, or its error ends the pass |
| RuleSync.Sync | sync.go:12-61 | the objects hold `SyncAll`; non-root and any error return no rules; all fresh and distinct |
| RuleSync.SyncNextPass | sync.go:21-58 | one more IP version's rules are appended, or its error ends the sync |
| RuleSync.LabelRule | sync.go:71-73 | the rule becomes `LabelOne` of itself |
| RuleSync.LabelAt | sync.go:69-77 | labels one rule and leaves the others unchanged |
| RuleSync.LabelAll | sync.go:68-78 | afterwards the objects hold `Labelled` of the synced rules |
| RuleSync.LabelRules | sync.go:63-80 | a failed sync is reported with no rules; otherwise every synced rule is labelled as `Labelled` says |

## Left out

- Process execution, logging and `Debug` output are left out: the command executor is the oracle `Env.exec`, and log lines change no state.
- `GetIptablesBinaryPath` failures are not modelled. The binary path is the total function `Env.binaryPath`, so the error return in Sync (sync.go:24-27) and the panic in String (rule.go:131-134) cannot happen in the model.
- `updateRuleNumber` (rule.go:104-125) is not modelled: nothing in the core calls it.
- `TargetJump.MarshalJSON` (target_jump.go:16-27) is not modelled: JSON encoding is outside the rule logic.
- `TargetDSCPClass.String` (target_dscp.go:37-41) is not modelled: it formats a string with `%d`, and its output depends on Go's formatting of that mismatch.
- `strconv.Quote` is the abstract `Env.quote`, and `uuid.New` is the parameter `nextId`.
- The Goto, DNAT, SNAT, MASQUERADE and MARK targets are not part of this model. Their text and validation come from `Env`, and the parser records only the value or option/value pair it hands them.
- `ValidChain` only decides whether a log line is written, so it is left out.
- The `Opt`, `Action`, `Counters` and `Debug` fields are not modelled: the core never reads them in a way that changes a result.
- The errors of `MatchGeneric.SetName`, `SetOption` and `SetValue` (rule.go:322-334) are not modelled: those setters are not part of this model, and they are taken to succeed.
- There is no literal `Parse(String(r)) == r` round trip. String quotes comments with `strconv.Quote` and writes `--protocol`/`--source`, while Parse reads the short `-p`/`-s` forms of a listing. ParseProperties proves what does read back: the id, name and app comments, and whole listing lines.
- `CurrentRules` (sync.go:82-84) only calls Sync, so it has no member of its own.
- Rules.Rule.Update takes a `Rule` reference `u`, which may be the receiver itself. It reads `u.Data()` once, before any write, and its contract speaks of that snapshot (`old(u.Data())`). This matches the Go code even under aliasing: no line of rule.go:459-472 reads a field that an earlier line of Update has written.
- `MatchComment` is not part of this model. `Match.Option` returns `comment` for a comment match, the option the String segment `-m comment --comment …` (rule.go:188-195) relies on; `Name` likewise returns `comment`, and `Value` returns the comment text.
- `ConvertToTable` is called by Parse (rule.go:238), but its body is not part of this model. Vocabulary.ConvertToTable accepts exactly the five table names `filter`, `nat`, `mangle`, `raw` and `security`. On an error the table is left empty, standing for the zero value the Go assignment writes.
- Rules.Rule.New builds the rule with `SetIdentity` and `FillDefaults` and ends with `SetState(false, false)`. The resulting state is the one Go's NewRule produces.
- RuleSync.LabelRules also returns the rule objects, so that its contract can describe them; the Go function returns only the error.
- The id and name snapshots in `Env` are fixed for one call. The model does not capture how Replace during LabelRules changes the rules that later validations see.
- The failure of a Replace during LabelRules is only logged in Go (sync.go:74-76). In the model it shows only in the rule's valid and applied flags.
- RuleSync.Sync collects each pass's rules and concatenates them, in the same order as Go's single append loop.
- Sync returns an empty sequence where Go returns `nil`.
- SyncModel.SyncNumbered and SyncModel.PassNumbered require the table list to hold no name twice. The package-level `tables` list is not part of this model; `Env.tables` stands for it. If a table were listed twice, its counters would restart on the second listing.

## Findings

| source | as written | input that shows it | evidently intended | confidence | as-written member | corrected member |
|---|---|---|---|---|---|---|
| rule.go:466 | a set `SourceNegated` in the update is written to `OutputNegated` | update an empty rule with one whose only set field is `SourceNegated` | the source negation is set | not executed | RuleUpdate.SourceNegationMisplaced | RuleUpdate.MergeIntended |
| rule.go:470 | a set `DestinationNegated` copies `DestinationPortNegated` of the update | a rule with `DestinationNegated` updated by one with only `DestinationNegated` set: the negation is cleared | the destination negation stays set | not executed | RuleUpdate.DestinationNegationLost | RuleUpdate.MergeIntended |
