# Alderpoint DNS: verified models

A Dafny model of the parts of Alderpoint DNS whose correctness is hard to see by
reading one function: the filtering-policy compiler, the rule parser, the staged
restore, the access-policy compiler, the telemetry decoder and the network watchdog.
`dafny verify dfyconfig.toml` checks everything. Nothing here is executed.

| file | what it models |
|---|---|
| `Wrappers.dfy`, `Strings.dfy`, `Positional.dfy` | result types, text operations, positional numerals |
| `DomainNames.dfy` | names as label sequences, zone owners, and how both read as dotted text |
| `CustomRules.dfy` | stored rules, their direct evaluation, the compiled zone and dnsdist lists, their execution (specification) |
| `CompilerCorrectness.dfy` | the compiled policy against the direct evaluation |
| `PolicyCompiler.dfy` | the compiler itself: dictionaries, passes and loops, proved against the specification |
| `ZoneFile.dfy` | the lines of the zone file, how they are read back, and the name tests on dotted text |
| `DataFiles.dfy` | the text of the dnsdist data files, the loader that reads it, and both layers run on the deployed texts |
| `AllowValidation.dfy` | the structural check of allow rules on the rendered zone text |
| `DomainSyntax.dfy`, `RuleParser.dfy`, `RuleForms.dfy`, `NormalForm.dfy` | domain normalisation, `parse_rule`, the written forms of its rules, and the stored normal form |
| `LineMeanings.dfy`, `Modifiers.dfy`, `HostsLines.dfy`, `RefusedLines.dfy`, `SourceMeanings.dfy` | what each documented line shape means, stated on its text, and which lines do nothing |
| `RegexScanner.dfy` | the nested-quantifier scan of regular-expression text |
| `SourceParser.dfy`, `SourceAccounting.dfy` | blocklist lines (fast path and shared parser) and the per-source counters |
| `Restore.dfy`, `Tables.dfy`, `UndoLog.dfy` | the restore protocol, the chunked table merge, the file undo log |
| `ClientId.dfy`, `AccessPolicy.dfy`, `ClientRegistry.dfy` | ClientID labels, access policy and its Lua lists, client tables and migration |
| `Framing.dfy`, `Protobuf.dfy` | stream framing and recovery from undecodable frames, Protocol Buffers varints and fields |
| `NetworkChange.dfy` | confirm-or-rollback of network changes |

Names are label sequences; `DomainNames` proves that the dotted text is injective and
that the program's suffix tests on text are suffix tests on labels. Regular-expression
engines are an uninterpreted predicate. `ipaddress`, the IDNA codec and `re.compile`
are functions passed in as `Libraries`; the theorems that use addresses ask only for
`Lawful`: an address parses only from address-shaped text, its printed form parses back
to it, and the printed form is digits and separators followed by the scope exactly as it
was written, if there is one.

The two layers of the filtering policy are executed as the program deploys them:
dnsdist's pass lists and regex lists first (in the order of the static Lua loader), then
BIND, which answers its own zones and applies the response-policy zone to everything
else: `CNAME .` blocks (draft-vixie-dnsop-dns-rpz-00 section 3.1), `CNAME rpz-passthru.`
lets through (section 3.3), address records rewrite (section 3.6), and an exact owner
goes before a longer and then a shorter wildcard.

## What the code does that its documentation does not say

- An `$important` block with the same domain as an allow deletes the whole allow, so a
  name below a subdomain allow can be blocked although the evaluation says it is allowed
  (`OutrankedAllowCounterexample`). An external entry below a subdomain rewrite wins over
  the rewrite (`ExternalBelowRewriteCounterexample`). `DeploymentAgreesIff` is the exact
  condition; `CompilerCorrect` is the usual case.
- A rewrite's address is the first one stored for its domain and family, whatever the
  subdomain flag of the rule that stored it: an address written for the exact name also
  answers below it once any rewrite of that name has subdomains
  (`ExactAddressAnswersBelow`). `AnswerFromMatchingRuleIff` says on which rows the answer
  is an address that some rule matching the name stores.
- `_integer_pk_column` also accepts the first column of a composite primary key, which
  can repeat. `MergeTable` shows that the windowed copy is still exact, and that only a
  row without a key makes it fail.
- After a crash between the swap and the mark, the reaper reports that the live database
  was not modified although it was (`UntouchedReportCanBeWrong`); the report is wrong in
  exactly the runs with a swap and no mark (`UntouchedReportWrongIff`).
- A running worker's row is taken for abandoned when the row has no boot id, but also when
  the reaper cannot read the boot id or the worker's `/proc/<pid>/stat`, as under a `/proc`
  that hides other users' processes (`ReapedAliveIff`).
- A dead worker's row is not reaped while another process that can be read has the worker's
  pid, if the row has this boot's id but no start ticks (`DeadWorkerReapableIff`).
- A pending network change can be rolled back early by a timer that is not its own exactly
  when an earlier event left a timer that has not fired since (`EarlyRollbackIff`). What
  leaves one is an apply whose state file could not be written after the timer was armed, a
  failed live apply that was rolled back, a confirmation that could not cancel, or a foreign
  firing; without the first three it never happens (`WithoutLeaksOwnTimersOnly`).
- A watchdog whose rollback is cut short (the staged file cannot be removed, a command cannot
  be run) leaves the change pending with no timer, and so does a confirmation that cancels
  and then cannot remove the state file. `UnwatchedIff` says when a change is pending without
  its watchdog; once no timer is armed, only a confirmation gets out (`UnwatchedStays`).
- A rollback logs a restoring write that fails and still clears the change:
  `RestoredExactlyIff` says exactly when the files are those of the snapshot.
- An apply whose timer cannot be started, or whose state file cannot be written, leaves the
  staged file in place with nothing pending, so nothing but an edit or a later change removes
  it (`FailureLeavesStagedFile`); `FailedApplyUndoneIff` says when a failed apply leaves the
  files as they were.
- A telemetry frame that does not decode clears the collector's buffer. If the chunk ended
  inside another frame, that frame is lost too and what follows is read out of step
  (`GoodFrameLost`); a chunk of whole frames only loses its own rest
  (`WholeChunksRecover`).
- The fast path of the source parser blocks `localhost.localdomain`, which the shared
  path skips (`FastPathKeepsAlias`); `AliasLineIff` says on which lines.
- Duplicate detection compares stored text, so a rewrite written on a hosts line and the
  same rewrite written as a modifier are both kept (`BothSpellingsKept`);
  `MissedDuplicateIff` says which duplicates are missed.

- An `$important` line and the same line without it are stored as the same text with different
  priorities, so whichever comes second is dropped as a duplicate (`ImportanceNotStored`).
- The check of an exact allow searches the zone text for a substring, which the record of a name
  that merely ends alike also contains (`OtherNamePasses`); `RepresentedIff` says what the check
  accepts. Zones rendered by this pipeline pass it rightly (`ValidationNeverRejects`).
- A four-byte frame header must arrive whole: cut after its two zeros, the first zero is skipped
  and the collector waits for a frame of 256 bytes or more (`LongHeaderCut`).
- No frame header can announce more than 65535 bytes, so the limit of 1 MiB is never what makes
  the collector skip a byte (`LimitNeverReached`).
- A telemetry message cut off inside its last field of bytes is not refused; the field comes out
  shorter (`CutPayloadAccepted`).

## Model

| member | source | states |
|---|---|---|
| CompilerCorrectness.DeploymentAgreesIff | app/custom_rules.py:1050-1145 | for every rule set, local zones, blocklist and name, the deployed lists and zone answer as the direct evaluation if and only if `Agrees`, a condition on the rows, priorities and external names |
| CompilerCorrectness.CompilerCorrect | app/custom_rules.py:1166-1329 | with no block outranking an allow of its domain and no external name below a subdomain rewrite, deployment and evaluation give the same outcome for every name |
| CompilerCorrectness.CompilerCorrectAtRuleDomains | app/custom_rules.py:1082-1124 | a name that is itself a rule's domain needs neither condition |
| CompilerCorrectness.ResolvesIff | app/custom_rules.py:1332-1382 | which names the deployed policy leaves alone: the first surviving rules that reach the name are an allow, or none reach it, no external entry covers it and no uncompensated block pattern matches |
| CompilerCorrectness.OutrankedAllowCounterexample | app/custom_rules.py:1216-1217 | for every domain and every name below it, an important exact block beside a subdomain allow makes deployment block what evaluation allows |
| CompilerCorrectness.ExternalBelowRewriteCounterexample | app/custom_rules.py:1236-1252 | an external entry at any name below a subdomain rewrite is answered as blocked where evaluation says rewritten |
| CompilerCorrectness.AllowsSurviveBlocklists | app/custom_rules.py:1236-1296 | at or below a surviving subdomain allow the answer is always that of the first custom rules reaching the name, whatever the external set |
| CompilerCorrectness.NoMatchAgrees | app/custom_rules.py:1126-1145 | with no matching domain rule, the regex lists and the zone decide as the evaluation does |
| CompilerCorrectness.ExactMatchAgrees | app/custom_rules.py:1203-1233 | conflict resolution at a name with rules of its own gives the evaluation's precedence |
| CompilerCorrectness.SubdomainRewriteOutcome | app/custom_rules.py:1266-1275 | below a subdomain rewrite the answer is the rewrite unless a remaining external entry stands in between |
| CompilerCorrectness.KeptAllowOutcome | app/custom_rules.py:1276-1283 | below a kept subdomain allow the name always resolves |
| CompilerCorrectness.SubdomainBlockOutcome | app/custom_rules.py:1284-1295 | below a subdomain block that no allow beats the name is always blocked |
| CompilerCorrectness.RewriteAnswer | app/custom_rules.py:1174-1180 | a rewritten name is answered with the first A and first AAAA address stored for its best match |
| CompilerCorrectness.FirstAddressIsFirst | app/custom_rules.py:1174-1180 | the address kept per family is the first one in row order |
| CompilerCorrectness.AnswerFromMatchingRuleIff | app/custom_rules.py:1174-1180 | below a rewritten domain, the address answered is one that a rule matching the name stores exactly when the family's first row has subdomains or a later subdomain row stores the same address |
| CompilerCorrectness.ExactAddressAnswersBelow | app/custom_rules.py:1266-1275 | for every domain and every name below it, an exact rewrite followed by a subdomain rewrite of the same family answers below with the exact rule's address, which no matching rule stores |
| CompilerCorrectness.EvaluationIgnoresOrder | app/custom_rules.py:1076-1145 | the evaluation's verdict is the same for any order of the rows |
| CompilerCorrectness.RegexFilesMatch | app/custom_rules.py:1309-1329 | the deployed regex files match a name exactly when a stored regex rule does |
| CustomRules.ListsOf | app/custom_rules.py:1314-1319 | the two pass lists hold exactly the local zones and the passing names, without overlap (for the regex lists see RegexFilesMatch) |
| CustomRules.FirstOwner | app/custom_rules.py:1021-1034 | zone lookup finds the exact owner, else the longest wildcard that has a record |
| CustomRules.BestMatch | app/custom_rules.py:1079-1103 | the most specific suffix at which a domain rule matches |
| DomainNames.EndsWithIsBelow | app/custom_rules.py:1070-1085 | `endswith("." + d)` on dotted text holds exactly for names strictly below d |
| DomainNames.TextInjective | app/custom_rules.py:1004-1034 | two names with the same dotted text are the same name |
| DomainNames.OwnerTextInjective | app/custom_rules.py:1255-1296 | exact and wildcard owners never share their text |
| PolicyCompiler.ActiveRuleSet.MergeRow | app/custom_rules.py:1166-1200 | merging one more row leaves the dictionaries at the specification's merge of all rows so far |
| PolicyCompiler.ActiveRuleSet.ResolveConflicts | app/custom_rules.py:1203-1233 | the two in-place passes leave at every name exactly the resolved rules |
| PolicyCompiler.CollectActive | app/custom_rules.py:1166-1200 | the loop over the rows compiles the rule set as specified |
| PolicyCompiler.ActiveRuleSet.SubtractAllowed | app/custom_rules.py:1236-1252 | exactly the external names with no allow at them and no subdomain allow at or above them remain |
| PolicyCompiler.RpzRecords | app/custom_rules.py:1255-1296 | the three passes give every owner its custom records, and the occupied set is exactly the claimed owners |
| PolicyCompiler.RenderRpz | app/alderpointdns_compiler.py:1072-1090 | every owner holds its specified records, and each owner is conflict-free: one CNAME alone, or at most one A and one AAAA |
| PolicyCompiler.OwnerRecordsConflictFree | app/custom_rules.py:1203-1296 | the records of an owner never conflict, for every rule combination |
| PolicyCompiler.RenderDnsdistData | app/custom_rules.py:1309-1319 | the four lists of a compiled rule set are the specified ones (for their text see DataFiles.RenderDataTexts) |
| PolicyCompiler.RpzStatus | app/custom_rules.py:1021-1034 | the search for the best owner answers as the zone does, from the owner that answers there |
| ZoneFile.RpzStatusOfFile | app/custom_rules.py:1004-1040 | reading the lines of the file back: the owner that answers for a name, whether it is exact or a wildcard, the entries listed and whether they block |
| ZoneFile.FileReads | app/custom_rules.py:1013-1017 | the entries read under an owner's text are exactly the records rendered for that owner, header lines and directives skipped (for what an address entry says see RewrittenNameListed) |
| ZoneFile.DeployedFileAnswers | app/alderpointdns_compiler.py:1072-1090 | for every rule set and block list of normalised names, the text of the deployed file answers every name as the zone does, from the same owner |
| ZoneFile.RewrittenNameListed | app/custom_rules.py:1266-1275 | for a name that deployment and evaluation rewrite, the deployed text lists `A t` exactly when t is the first IPv4 address stored for the name's best match, and `AAAA t` exactly when it is the first IPv6 address |
| ZoneFile.AtOrBelowOnText | app/custom_rules.py:1070-1085 | equality and `endswith("." + d)` on dotted text say exactly that a name is at or below d |
| ZoneFile.MatchesNameOnText | app/custom_rules.py:1082-1086 | the evaluation's row test on strings is the test on labels |
| ZoneFile.NormalizedIsStored | app/alderpointdns_compiler.py:543-562 | what the parser stores for a domain is the dotted text of a name as the compiler takes it |
| DataFiles.LinesReadBack | app/custom_rules.py:1341-1352 | the Lua loader reads back exactly the entries written, in order, but for empty ones |
| DataFiles.NamesReadBack | app/custom_rules.py:1321-1326 | a file of normalised names is never refused and lists exactly those names |
| DataFiles.PatternsReadBack | app/custom_rules.py:1303-1328 | a pattern file is refused exactly when some pattern holds a control character; otherwise every pattern is read back as deployed |
| DataFiles.ParsedPatternUsable | app/custom_rules.py:342-358 | every pattern the parser stores can be written and read back |
| DataFiles.DeployedPatternIs | app/custom_rules.py:327-339 | a pattern that ends in `$` after an even number of backslashes is deployed with `\.?` before the `$`; after an odd number, and without a final `$`, it is deployed as stored |
| DataFiles.ListedMatch | app/custom_rules.py:1356-1372 | matching a name against the lines of a name file is matching it against the set of names |
| DataFiles.RenderDataTexts | app/custom_rules.py:1309-1328 | the four texts are refused exactly for an unsafe pattern; for rules as the parser stores them they read as the specified lists |
| DataFiles.TextsExecute | app/custom_rules.py:1341-1382 | texts that read as the lists and the zone are executed as these are |
| DataFiles.DeployedTextsAgree | app/custom_rules.py:1050-1145 | for every normalised name the two programs on the deployed texts agree with the evaluation exactly under `Agrees`, and where both rewrite, the entries listed are the first stored address of each family |
| DataFiles.DeployTexts | app/alderpointdns_compiler.py:1783-1786 | for rules as the parser stores them no file is refused; for every normalised name the two programs on the deployed texts agree with the evaluation exactly under `Agrees`, and a rewritten name is answered with the text of the first stored address of each family |
| PolicyCompiler.EvaluateDomain | app/custom_rules.py:1050-1145 | the row loop, the best-key search and the precedence compute the specified verdict |
| PolicyCompiler.BestKeySelects | app/custom_rules.py:1101-1106 | the rows with the greatest (exact, labels) key are the rules of the most specific matching suffix |
| PolicyCompiler.ArtefactsCorrect | app/alderpointdns_compiler.py:1072-1090 | any zone lines and lists that read as specified are correct exactly under `Agrees` |
| PolicyCompiler.Deploy | app/alderpointdns_compiler.py:1783-1786 | the files of one deployment are conflict-free and answer every name as evaluated, exactly under `Agrees` |
| AllowValidation.ValidationNeverRejects | app/alderpointdns_compiler.py:1444-1488 | every allowed name is out of the block set and its passthru text is found in the rendered zone |
| AllowValidation.ExactPassthruMissingIff | app/alderpointdns_compiler.py:1444-1458 | a surviving allow has no record of its own exactly when a rewrite has its name (the substring test then finds the wildcard's line) |
| AllowValidation.RepresentedIff | app/alderpointdns_compiler.py:1444-1458 | on any zone of normalised names under a header without passthru records, the check of an allow accepts exactly when its wildcard is let through, if it covers subdomains, and some owner whose text ends with the name is let through |
| AllowValidation.OtherNamePasses | app/alderpointdns_compiler.py:1454-1455 | for every name, the record of a longer name that ends alike satisfies the check of an exact allow although the name has no record |
| AllowValidation.ValidateAllowDomains | app/alderpointdns_compiler.py:1461-1488 | the check passes exactly when every allowed name is unblocked and represented, and reports the first failing name in sorted order |
| AllowValidation.DeployAndValidate | app/alderpointdns_compiler.py:1863-1865 | rendering a deployment and validating it always succeeds |
| RegexScanner.ScannerDecidesNesting | app/custom_rules.py:264-324 | the scan of a printed syntax tree reports a risk exactly when a repeated group directly contains a repeated atom |
| RegexScanner.NestedQuantifierRisk | app/custom_rules.py:264-324 | the index loop with its flag stack computes that scan, on every text |
| RegexScanner.ClassEnd | app/custom_rules.py:210-223 | the bracket that closes a character class, or none |
| DomainSyntax.NormalizeIdempotent | app/alderpointdns_compiler.py:543-562 | a normalised name is well shaped and normalises to itself |
| DomainSyntax.Normalize | app/alderpointdns_compiler.py:543-562 | an accepted name has at least two valid labels and is no IP literal |
| DomainSyntax.NormalizedIff | app/alderpointdns_compiler.py:54 | character by character, which texts are names in normal form: at most 253 of `a-z0-9_-` and dots, at least one dot, no hyphen or dot beside a dot or at an end, no 64 characters without a dot, and no address |
| DomainSyntax.NormalizeVariants | app/alderpointdns_compiler.py:543-562 | a name in any case, with any dots around it and any blanks around those, normalises to that name |
| RuleParser.ParseModifiers | app/custom_rules.py:385-411 | the modifier loop applies modifiers in order and stops at the first one it cannot keep |
| RuleParser.ModifyAllKeeps | app/custom_rules.py:385-411 | modifiers never change domain, pattern or subdomain flag; a valid rule keeps its action or becomes a rewrite, never from an allow |
| RuleParser.ParseHostsLine | app/custom_rules.py:441-485 | the loop yields one rule per host name |
| RuleForms.ParsedForm | app/custom_rules.py:497-563 | every valid rule of every line is in one of four written forms with its fields consistent and its text fit to be read back |
| LineMeanings.DomainLineMeans | app/custom_rules.py:527-563 | for every normalised name, the bare line, `|name^` and `||name^`, with `@@` or without, is one valid rule that blocks or allows the name: with its subdomains as the caller chooses, never, and always; `$important` sets the priority to 100 and nothing else |
| LineMeanings.ImportanceNotStored | app/custom_rules.py:488-600 | a line and the same line with `$important` have the same stored text and action and different priorities |
| LineMeanings.RewriteLineMeans | app/custom_rules.py:361-411 | `$dnsrewrite=` with an address, or with NOERROR, its record type and the address, makes the anchored rule a rewrite to that address |
| LineMeanings.UnfitRewriteInactive | app/custom_rules.py:378-399 | a record type of the other family, and any rewrite on an exception, makes the rule inactive |
| LineMeanings.OtherModifierInactive | app/custom_rules.py:406-410 | every other modifier makes the rule inactive instead of dropping the modifier |
| Modifiers.ModifierListMeans | app/custom_rules.py:385-411 | an anchored line with any list of blanks, `important` and rewrites is one valid rule: priority 100 exactly when `important` is among them, a rewrite to the last address if there is one, else the block or allow it is without them; stored as such |
| LineMeanings.HostsLineMeans | app/custom_rules.py:441-485 | a hosts line rewrites exactly its name to the address, and blocks exactly its name for 0.0.0.0 and :: |
| HostsLines.HostsLineEach | app/custom_rules.py:441-485 | a hosts line with any names and a comment gives one rule per name, the one its name alone gives, with the comment unless the name is no domain |
| LineMeanings.RegexLineMeans | app/custom_rules.py:414-438 | an accepted pattern between slashes is a block of what it matches, and an allow after `@@` |
| LineMeanings.CommentLineMeans | app/custom_rules.py:511-520 | a line that starts with `!` or `#` is a comment without action, kept as written, its comment what follows the marks |
| RefusedLines.AnchoredLineIff | app/custom_rules.py:534-552 | `|text^` and `||text^` are valid exactly when the text normalises and nothing follows the terminator, then mean its normal form, and are inactive exactly when something follows |
| RefusedLines.PatternKeptIff | app/custom_rules.py:342-358 | a pattern is kept exactly when it has at most 512 characters, no control character, compiles and nests no quantifiers |
| RefusedLines.SeveralLinesInvalid | app/custom_rules.py:507-508 | text of several lines is one invalid rule showing at most 120 characters of the first |
| RefusedLines.ControlLineInvalid | app/custom_rules.py:509-510 | a line with a control character other than a tab is one invalid rule |
| RefusedLines.CosmeticLineInactive | app/custom_rules.py:525-526 | an element-hiding or scriptlet rule of a site is kept inactive |
| NormalForm.RoundTrip | app/custom_rules.py:488-563 | for every text and every valid rule parsed from it, regex rules and each rule of a multi-host line included, parsing the stored text gives that one rule with the same type, action, domain, subdomain flag, pattern and address, and the same stored text |
| NormalForm.DuplicatesActAlike | app/custom_rules.py:570-574 | valid rules with the same stored text have the same effect |
| NormalForm.MissedDuplicateIff | app/custom_rules.py:441-494 | valid rules with the same effect have the same stored text unless they are rewrites and exactly one of the two lines is a hosts line |
| NormalForm.BothSpellingsKept | app/custom_rules.py:441-494 | for every address that can stand in both places and does not mean "block", and every normalised domain, the hosts line and the modifier line of the rewrite parse to single valid rules with the same effect and different stored text |
| NormalForm.HostsEntryIff | app/custom_rules.py:522-524 | a valid rewrite is stored as a hosts entry exactly when its line is one |
| NormalForm.ReparseRewrite | app/custom_rules.py:361-411 | a rewrite in modifier form is read back with its address |
| NormalForm.ReparseHosts | app/custom_rules.py:441-485 | a rewrite in hosts form is read back as the same exact rewrite |
| NormalForm.ReparseRegex | app/custom_rules.py:414-438 | a stored pattern is read back with its slashes in the same places |
| SourceParser.FastRefinesSlow | app/alderpointdns_compiler.py:613-710 | whenever the fast path answers, the shared parser gives the same single result unless the line is an alias line, which it skips |
| SourceParser.FastPathTransparentIff | app/alderpointdns_compiler.py:639-710 | a line that is not in hosts format means what the shared parser says if and only if it is no alias line |
| SourceParser.AliasLineIff | app/alderpointdns_compiler.py:613-636 | the alias lines: the dotted alias in any case and with any outer dots, bare or between the common markers |
| SourceParser.FastPathKeepsAlias | app/alderpointdns_compiler.py:59 | the exception happens: that line is accepted by one path and skipped by the other |
| SourceParser.PrefilterExact | app/alderpointdns_compiler.py:585-599 | the cheap first-character test never turns an address away |
| SourceParser.ParseSourceLine | app/alderpointdns_compiler.py:639-710 | the loops over hosts and parsed rules give the line's results in order |
| SourceMeanings.SourceDomainLine | app/alderpointdns_compiler.py:613-636 | for every normalised name, the bare line, `|name^` and `||name^` block it in a source, and allow it after `@@` |
| SourceMeanings.SourceHostsLine | app/alderpointdns_compiler.py:655-680 | a hosts line blocks its name, whatever the address, the name in any case and with any dots around it; the dotted localhost name is skipped |
| HostsLines.SourceHostsEach | app/alderpointdns_compiler.py:655-680 | a hosts line with any names and a comment has, in a source, the results its names have each on a line of its own |
| HostsLines.BareAddress | app/alderpointdns_compiler.py:658-661 | an address without a name is invalid in a source and as a custom rule |
| SourceMeanings.SourceLocalhostLine | app/alderpointdns_compiler.py:59 | a hosts line of one of the four names of the machine itself is skipped |
| SourceMeanings.SourceBlockpageLine | app/alderpointdns_compiler.py:565-582 | a rewrite to the vendor's block page counts as the block it stands for |
| SourceMeanings.SourceRewriteLine | app/alderpointdns_compiler.py:698-703 | a rewrite to an address is reported as unsupported and contributes nothing |
| SourceMeanings.SourceCommentLine | app/alderpointdns_compiler.py:717-722 | blank lines, comments and section headers are no entries |
| SourceMeanings.SourceEntryLine | app/alderpointdns_compiler.py:723-724 | every line that starts with none of their marks is an entry with its own results |
| SourceAccounting.ParseRuleLines | app/alderpointdns_compiler.py:713-757 | the loop over a source's lines computes the tally of its entries |
| SourceAccounting.SourceExact | app/alderpointdns_compiler.py:713-757 | a source's sets hold exactly the domains its entries block and allow; every result is counted once, the invalid and the unsupported ones each by their own counter; accepted = blocks + allows and exceptions = allows |
| SourceAccounting.CollectRules | app/alderpointdns_compiler.py:942-1011 | per source parsed = duplicates + unique + exceptions with no negative figure, its unique figure counts its domains no earlier source carries; unique figures add up to the number of blocked domains; a domain is actively blocked exactly when some source blocks it and none allows it |
| SourceAccounting.UnionSays | app/alderpointdns_compiler.py:942-1011 | the union of the sources' sets holds exactly the domains that some result of some source's lines blocks, or allows |
| SourceAccounting.UniqueAddsUp | app/alderpointdns_compiler.py:991-997 | unique contributions add up to the size of the union, for any list of sets |
| SourceAccounting.OwnedOnce | app/alderpointdns_compiler.py:982-1006 | a domain is counted for the first source that carries it and no other |
| SourceAccounting.RedundantIff | app/alderpointdns_compiler.py:982-1006 | a source contributes nothing exactly when earlier sources carry all its domains |
| Restore.LiveAsExpected | app/backup.py:2297-2375 | in every run, with commits, table creations and crashes between any two steps, the live database is what a reference computes from the initial databases and the events alone: the commits, and at the swap the archive's rows in the chosen tables of the snapshot |
| Restore.UntouchedBeforeSwap | app/backup.py:2297-2375 | in a run without a swap the whole live database is the old one plus every commit, wherever the restore stops |
| Restore.NoCommitLost | app/backup.py:1846-1873 | a table that existed at the snapshot and is not selected, not archived or shares no column with the archive holds every commit, before and after the swap |
| Restore.MergedAtSwap | app/backup.py:1876-1901 | at the swap each selected table of the snapshot that shares a column with the archive holds one row per archived row, in the live columns: the archived value in every shared column the row has, the column's default elsewhere |
| Restore.ChosenIff | app/backup.py:1979-1998 | the tables replaced are exactly the selected ones that both databases have with a column in common |
| Restore.SwapDropsLateTables | app/backup.py:1866-1868 | a live table survives the swap if and only if it existed when the snapshot was taken |
| Restore.PromotedImpliesSwapped | app/backup.py:2368-2375 | the promotion mark is set only after the swap |
| Restore.ReapedAliveIff | app/backup.py:332-344 | a running worker's row is reaped if and only if the row has no boot id, or the reaper cannot read the boot id or the worker's start ticks |
| Restore.DeadWorkerReapableIff | app/backup.py:332-344 | a dead worker's row is reaped by whatever the reaper can read, pid reuse and reboots included, if and only if the row has start ticks or no boot id, or the reaper reads another boot id or no ticks |
| Restore.UntouchedReportWrongIff | app/backup.py:440-452 | the report "not modified" is wrong in exactly the runs in which the swap has happened and the mark has not |
| Restore.UntouchedReportCanBeWrong | app/backup.py:2368-2375 | such a run exists for every restorable table |
| Tables.MergeTable | app/backup.py:2001-2029 | the whole-table and the windowed copy leave the same rows, one for each archived row with its shared values and the defaults elsewhere, and the archived rows themselves when the columns are the same; the copy fails exactly when it is windowed and some row has no key |
| Tables.RestoredRows | app/backup.py:1986-2025 | row by row: exactly the target's columns, the archived value in every shared column the row has, the default elsewhere; with equal columns the archive's own rows |
| Tables.WindowsCoverRange | app/backup.py:2011-2023 | the windows together select exactly the rows of the key range |
| Tables.CopyWindows | app/backup.py:2011-2023 | the window loop terminates and inserts the rows of every window once |
| UndoLog.RollbackRestores | app/backup.py:1683-1720 | after any replacements, nested or repeated targets and a partial last copy included, undoing the log gives back exactly the original files |
| UndoLog.UndoReplaced | app/backup.py:1702-1720 | undoing one replacement restores every file whatever was copied meanwhile |
| UndoLog.FileSystem.ReplacePath | app/backup.py:1683-1699 | does nothing when nothing is staged; otherwise logs the step, and every path below the target holds what was staged for it, every path below the backup what was below the target, and every other path what it held |
| UndoLog.ReplacementInstalls | app/backup.py:1683-1699 | one replacement with an unused backup: staged files at the target, old files at their places below the backup, all others unchanged |
| UndoLog.InstalledByLast | app/backup.py:2164-2192 | after any replacements a path holds what the last replacement whose target covers it staged there |
| UndoLog.MovedAsideByAll | app/backup.py:1690-1695 | every backup holds what was at its target when it was replaced |
| UndoLog.UntouchedByAll | app/backup.py:1683-1699 | a path below no target and no backup is unchanged |
| UndoLog.RollbackAt | app/backup.py:1702-1720 | with any steps raising, and whatever they leave, every file outside the backups is the original one, except that below a target whose step raised it is what that step left; where targets nest or repeat, the first replacement's step decides |
| UndoLog.FileSystem.RollbackPaths | app/backup.py:1702-1720 | the reverse loop undoes the whole log, going on past steps that raise |
| UndoLog.FileSystem.ReplaceThenRollBack | app/backup.py:2164-2192 | a failed restore leaves every file as it was when all steps of the rollback work, and otherwise every file outside the backups and the targets whose steps raised |
| ClientId.LabelRoundTrip | app/clients.py:317-345 | decoding the DNS label of every canonical ID gives the ID back |
| ClientId.LabelFits | app/clients.py:317-329 | every label has at most 63 characters and no dot |
| ClientId.LabelIs | app/clients.py:317-329 | a short ID is its own label; the label of a long one is 52 characters of the lower-case base 32 alphabet, whose number is 16 times the number the ID's bytes spell |
| ClientId.HexAlphabet | app/clients.py:328-345 | the sixteen hexadecimal digits and their values |
| ClientId.Base32RoundTrip | app/clients.py:328-345 | unpadded base 32 (RFC 4648 section 6) is decoded to the same bytes, for every length |
| ClientId.SniInjective | app/clients.py:355-356 | equal SNI hostnames come from equal IDs, across both lengths |
| ClientId.SniLeadsBack | app/clients.py:355-356 | the hostname up to its first dot decodes to the ID, and the fixed suffix follows |
| ClientId.DohPathInjective | app/clients.py:348-352 | equal DoH paths come from equal IDs |
| ClientId.DohPathIs | app/clients.py:348-352 | the path is the base without its final slashes, one slash, and the ID |
| ClientId.PlainPathPresentsNothing | app/clients.py:348-352 | no ID's DoH path is the plain base path |
| AccessPolicy.ExpandRules | app/clients.py:620-639 | the expansion lists exactly the effective entries in rule order; disabled and missing clients give none |
| AccessPolicy.EvaluateAccess | app/clients.py:642-675 | deny beats allow beats default, and the reason given is the first deny that matches, else the first allow |
| AccessPolicy.CoversIff | app/clients.py:605-617 | a network covers exactly the addresses of its version in its range, a block of two to the number of host bits; a prefix longer than the address covers none |
| AccessPolicy.RenderAccessData | app/clients.py:785-823 | the eight lists hold exactly the masks, hostnames and paths of the effective entries |
| AccessPolicy.ListsMatchRules | app/clients.py:785-823 | the lists of one action match a query exactly when some rule of that action does |
| AccessPolicy.CompiledPolicyExact | app/clients.py:869-915 | the Lua order refuses a query exactly when evaluation denies it, except that 127.0.0.1 and ::1 pass under default deny with no matching deny rule |
| AccessPolicy.CompileAccess | app/clients.py:785-915 | the same for the rendered data, for every query and presented ID |
| AccessPolicy.PlainQueryPresentsNothing | app/clients.py:348-357 | plain DNS and DoH on the base path present no ClientID |
| AccessPolicy.OneWayPresents | app/clients.py:317-357 | a query that carries an ID by hostname, by path or by both presents exactly that ID: labels and paths are injective |
| ClientRegistry.ConsistentRun | app/clients.py:400-592 | over every run, identifiers and rules stay unique, identifiers are owned and client rules name existing clients |
| ClientRegistry.MigrationIdempotent | app/clients.py:164-201 | migrating again changes nothing |
| ClientRegistry.MigratedAssigned | app/clients.py:164-201 | after a migration exactly the aliased networks are assigned besides what was |
| ClientRegistry.MigrationStores | app/clients.py:164-201 | a migration changes no client and no identifier there was, and gives every aliased network that was not assigned an enabled client with the alias's name |
| ClientRegistry.NoZombieClient | app/clients.py:236-266 | no later run of operations that does not add it again brings back an identifier of a deleted client |
| ClientRegistry.GoneRun | app/clients.py:236-266 | an identifier that is gone, and whose alias is gone, stays gone until it is added again |
| ClientRegistry.DeletedIsGone | app/clients.py:454-470 | deleting a client removes its rules, its identifiers and the aliases they came from |
| ClientRegistry.RemovedIsGone | app/clients.py:497-506 | removing an identifier removes it and the alias it came from |
| ClientRegistry.AddIdentifierStores | app/clients.py:473-494 | adding an identifier stores one new row of that client exactly when the client exists and no row has the value, and changes nothing else |
| ClientRegistry.AddRuleStores | app/clients.py:544-582 | adding a rule stores one new row exactly when its client exists, if it names one, and no row is equal, and changes nothing else |
| ClientRegistry.OneRowTouched | app/clients.py:422-440 | updating a client and removing a rule touch that row alone |
| ClientRegistry.InsertAllStores | app/clients.py:411-419 | the identifiers are all stored for the client exactly when they differ and none is assigned; every earlier row is kept |
| ClientRegistry.CreateClientStores | app/clients.py:400-420 | creating a client stores its row under a new id with all its identifiers, or changes nothing |
| ClientRegistry.DeletionKeepsOthers | app/clients.py:454-470 | deleting a client removes its row, its identifiers, its rules and the aliases its identifiers stand for, and keeps every other row |
| ClientRegistry.RemovalKeepsOthers | app/clients.py:497-506 | removing an identifier removes its row and the alias it stands for, and keeps every other row |
| ClientRegistry.AliasReturns | app/local_dns.py:415-431 | adding the alias again brings its network identifier back at the next initialisation |
| ClientRegistry.AliasStoredRows | app/local_dns.py:415-431 | storing an alias sets the name of its network and keeps every other alias |
| ClientRegistry.AliasDeletionKeepsClients | app/local_dns.py:434-438 | deleting an alias never removes an identifier |
| ClientRegistry.Without | app/clients.py:245-266 | exactly the aliases of the given networks are retired |
| ClientRegistry.Registry.InitDb | app/clients.py:164-201 | the migration loop over the alias table |
| ClientRegistry.Registry.CreateClient | app/clients.py:400-481 | inserts the client and all identifiers, or rolls the whole transaction back |
| ClientRegistry.Registry.DeleteClient | app/clients.py:454-470 | the cascade done by hand |
| ClientRegistry.Registry.RemoveIdentifier | app/clients.py:497-506 | removes the row and retires its alias |
| Framing.Reassembly | app/analytics.py:521-537 | for every list of frames and every way of cutting their stream, the frames come out in order and the buffer ends as the unfinished tail |
| Framing.FrameBuffer.IterFrames | app/analytics.py:521-537 | the in-place loop terminates on every buffer and computes the specified frames and rest |
| Framing.AllHandledIff | app/analytics.py:1023-1041 | for every list of frames and every cutting of their stream, exactly the frames sent are handled if and only if all of them decode; then the buffer is the unfinished tail and nothing was dropped |
| Framing.WholeChunksRecover | app/analytics.py:1037-1041 | when chunks are whole numbers of frames, an undecodable frame loses the rest of its chunk and nothing else |
| Framing.GoodFrameLost | app/analytics.py:1039-1041 | when a chunk ends inside a frame, an undecodable frame before it loses that frame although it decodes and arrives whole |
| Framing.DrainLongHeader | app/analytics.py:527-536 | a zero length followed by a two-byte one frames the same bytes as the short header, once the header is whole |
| Framing.LongHeaderCut | app/analytics.py:527-531 | the same stream cut inside that header is read out of step: no frame comes out |
| Framing.LimitNeverReached | app/analytics.py:527-532 | every announced length is below the frame limit |
| Framing.FrameBuffer.HandleClient | app/analytics.py:1023-1041 | the collector's loop over chunks computes what is handled, left and dropped, the decoder's exceptions included |
| Protobuf.VarintRoundTrip | app/analytics.py:386-398 | reading inverts the encoder for every value below 2^64 wherever it stands in the data |
| Protobuf.VarintFailsIff | app/analytics.py:386-398 | reading fails exactly when none of the next ten bytes ends the varint |
| Protobuf.ReadVarint | app/analytics.py:386-398 | the shift loop computes the specified value |
| Protobuf.MessageRoundTrip | app/analytics.py:401-423 | decoding inverts the encoder on every list of fields of wire types 0, 1, 2 and 5 |
| Protobuf.FieldsPrefix | app/analytics.py:401-423 | whole fields at the start are decoded to themselves whatever follows them, and the rest is decoded as it would be from there on |
| Protobuf.OtherWireRefused | app/analytics.py:419-420 | a key of wire type 3, 4, 6 or 7 refuses the whole message, whatever stands before and after it |
| Protobuf.CutPayloadAccepted | app/analytics.py:411-418 | a message cut anywhere inside its last field of bytes is accepted with that field shortened |
| Protobuf.FieldAt | app/analytics.py:404-421 | the position grows strictly with every field |
| Protobuf.ProtobufFields | app/analytics.py:401-423 | the decoding loop terminates and computes the specified fields or error |
| NetworkChange.FiringRestores | app/network_config.py:826-837 | whichever timer fires while a change is pending, the backend's files are those from before it if and only if no failed write left something else and a new staged file was removed; the change ends exactly when the rollback finishes |
| NetworkChange.RestoredExactlyIff | app/network_config.py:773-823 | a rollback restores the snapshot exactly if and only if no other file was added to the backend, no failed write left something else and a new staged file was removed; files written and files of other backends are right in any case |
| NetworkChange.UnwatchedIff | app/network_config.py:773-847 | in every run, a change is pending without its watchdog if and only if a rollback by that watchdog or a confirmation stopped halfway and the change has been pending since |
| NetworkChange.PendingIsWatched | app/network_config.py:697-770 | in every run without such an event a pending change has its watchdog armed |
| NetworkChange.UnwatchedStays | app/network_config.py:716-717 | with no timer armed a pending change survives every run without a confirmation, and the files change only by edits |
| NetworkChange.ConfirmedStays | app/network_config.py:840-861 | once confirmed, and until the next apply, the files change only by the administrator's edits, whatever timers fire |
| NetworkChange.ConfirmedChangeStays | app/network_config.py:697-861 | a change applied and then confirmed before any timer fires keeps its content in its file until the next apply or an edit of that file, whatever happens before and after the confirmation |
| NetworkChange.LastEditShows | app/network_config.py:840-861 | without a pending change a file holds what its last edit put there, whatever timers fire |
| NetworkChange.EarlyRollbackIff | app/network_config.py:661-681 | in every run, a pending change can be ended by a timer not its own if and only if an earlier event left a timer that has not fired since |
| NetworkChange.ForeignIff | app/network_config.py:697-861 | the timers armed besides the pending change's own are exactly those left by an unwritten state file, a failed live apply that was rolled back, a confirmation that could not cancel or a foreign firing, and not fired since |
| NetworkChange.OnlyOwnWatchdogIff | app/network_config.py:826-837 | only its own watchdog can end a pending change by firing exactly when no other timer is armed |
| NetworkChange.WithoutLeaksOwnTimersOnly | app/network_config.py:679-681 | in runs where no state file fails to be written, no failed live apply is rolled back to its end and every confirmation that clears a change cancels its timer, no foreign timer is ever armed |
| NetworkChange.StaleTimerEndsNextChange | app/network_config.py:740-767 | a timer left from an apply that failed, at its state file or live, rolls back the next change while its own watchdog is still armed |
| NetworkChange.FailedApplyUndoneIff | app/network_config.py:726-767 | for every way an apply can fail: it leaves a change pending exactly when it or its rollback was interrupted after the state file was written, and the files as they were exactly when its rollback restored them or nothing it wrote was new |
| NetworkChange.FailureLeavesStagedFile | app/network_config.py:740-751 | after a timer that cannot start or a state file that cannot be written, the staged file stays through every later firing, confirmation and edit of other files until the next apply |
| NetworkChange.StagedPathIff | app/network_config.py:493-611 | the staged file lies in the backend's scope, and two changes share it exactly when the backend is the same and so is the interface, which netplan does not distinguish |
| NetworkChange.StagingWritesOnly | app/network_config.py:574-611 | staging writes the content to its file and nothing else, but for a source line appended to an existing interfaces file that lacks one |
| NetworkChange.ScopesApart | app/network_config.py:419-431 | every file belongs to at most one backend, by its kind |
| NetworkChange.Helper.RestoreFiles | app/network_config.py:780-785 | the loop writes every snapshotted file, passing over writes that fail |
| NetworkChange.Helper.PerformRollback | app/network_config.py:773-823 | restores the files, removes a new staged file and clears the change, as far as it gets |
| NetworkChange.Helper.ApplyChange | app/network_config.py:697-770 | stages, arms and records a change, or refuses it, fails or is rolled back at each point where it can |
| NetworkChange.Helper.RollbackCheck | app/network_config.py:826-837 | one timer firing |
| NetworkChange.Helper.ConfirmChange | app/network_config.py:840-861 | clears the pending change and disarms its watchdog, as far as each succeeds |

## Left out

- Reading rows from SQLite: the rule rows given to the compiler are the enabled, valid ones in query order; priorities are non-negative, as the parser only stores 0 and 100.
- That BIND serves its own zones before the response policy is taken as given, as is its lookup order within the policy zone.
- DataFiles.RenderDataTexts: the order of the names is any enumeration, so that it is sorted is not stated; the deployed files are installed as rendered, without the staging check of dnsdist.
- Live DNS probes in `validate_allow_domains`: they never change the verdict.
- Python's Unicode rules for whitespace, case and digits: text operations are the ASCII ones; a non-ASCII name goes through the IDNA function.
- Wording of rejection reasons, line numbers and rejected samples; `parse_rule`'s states and the text it keeps are modelled.
- The importer and the web forms that add, edit or bulk-change rules: they store what the parser gives.
- The parse cache, downloads, health labels and timestamps of sources.
- RegexScanner.ScannerDecidesNesting: stated for printed syntax trees with at most one quantifier per atom; the loop itself is proved against the scan function on every text.
- The POSIX compatibility check and `re.compile` are one uninterpreted predicate.
- Restore.LiveAsExpected: writers reopen the database after the exclusive lock, as the lock's own documentation requires; an in-place partial merge of a table is one step with arbitrary rows.
- Restore.ReapedAliveIff: one restore and its row are followed; other restores' rows are ordinary commits.
- Tables.MergeTable: equal as multisets of rows; the order of rows in a merged table is not modelled, nor are indexes and constraints.
- UndoLog.RollbackRestores: assumes distinct unused backup names; empty directories, ownership and an interruption between a move and its log entry are not modelled.
- UndoLog.RollbackAt: a step that raises touches nothing but its own target and backup.
- Tar extraction, encryption, service restarts, retention and scheduling around the restore.
- ClientRegistry: alias networks are canonical, as `upsert_alias` stores them; descriptions, timestamps and the default-policy row carry no property here.
- AccessPolicy.CompiledPolicyExact: a query whose hostname and path carry two different IDs has no single ID to evaluate and is left out; SNI is compared as given.
- Framing.FrameBuffer.HandleClient: whether a frame decodes is a function of its bytes; socket time-outs and the event queue are not modelled.
- NetworkManager: its rollback restores IPv4 properties only.
- NetworkChange.Helper.ApplyChange: the state file is whole when it is there, every file of the backend can be read for the snapshot, and operations do not overlap.
- Web interface, notifications, certificates, dnsdist configuration migrations and upgrades.
