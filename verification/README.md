# pg_trickle: verified model of the verification tooling

pg_trickle keeps stream tables up to date from captured changes. Around the
engine stands tooling that decides what is kept, deleted, accepted or released:
shrinkers of failing scenarios, the corpus retention pass, the SQL API policy
parser, change buffer compaction, the view converter, the release evidence
checks and the catalog manifest diff. This project models that tooling in Dafny
4.11 and proves what it promises, for every input, every run and every oracle.

`dafny verify dfyconfig.toml` checks the whole project.

| files | what they model |
|---|---|
| `CorpusRetain`, `CoverBound`, `Ordering` | greedy set cover over coverage keys, its report, `--apply`, and its distance from the optimum |
| `InsertValues`, `InsertRoundTrip`, `InsertText` | taking `INSERT ... VALUES` apart and rebuilding it, and what text that keeps |
| `Replay`, `DvmShrink`, `MutationPlan`, `RecoveryShrink`, `ShrinkOrder` | the two shrinkers over one logged failure oracle, and the order in which they try |
| `StatementRows`, `LostRows` | what shrinking does to the rows of initial statements |
| `SqlLexer`, `SqlScanners`, `SqlLaws`, `SqlComments`, `SqlParentheses` | four character scanners over shared lexical rules, and what they make of comments and parentheses |
| `Whitespace`, `SqlSignature`, `TypeSpelling` | identity arguments of SQL functions |
| `SignaturePieces`, `SignatureHead`, `SignatureLayout`, `SignatureParameter`, `SignatureGlue`, `SignatureRoundTrip` | which parameter lists, in which layout, are read right |
| `CdcCompaction` | compaction of change buffers and what a consumer can tell |
| `DollarQuote` | dollar-quote tags and the converted statement |
| `ReleaseSuite`, `ReleaseEvidence` | the matrix of test attempts, the release decision, and the validators of the record |
| `ShardCoverage`, `ReleaseContract`, `OwnCases` | the shards of a contract, all checks of its evidence, and what they guarantee |
| `CatalogManifest`, `ManifestDiff` | owner normalisation and the manifest diff |
| `Text` | characters, joining, doubling of quotes |

Loops of the source are methods with loops, proved against recursive
specifications; the replay closure with its log and its map of successful plans
is a class. The outcome of a replay is an arbitrary function of the attempt
number and the plan, so nondeterministic replays are covered.

Where the code and its description differ, the code is followed:

- `_find_covering` is described as reporting which files cover a redundant
  scenario; a scenario without any key is redundant too and is reported as
  covered by none.
- The kind pass of the recovery shrinker compares with the kind a cycle had when
  the cycle's turn began, so an accepted delete can be replaced again by an
  accepted update within the same turn.
- Rebuilding an insert and parsing it again is not always the identity; the exact
  condition is `InsertRoundTrip.RoundTripIff`. Shrinking can lose more than rows, even
  of legal statements: words in front of a parenthesis that is no row, as in an
  `ON CONFLICT (id)` clause, and rows behind one with a parenthesis inside a literal.
  `LostRows` gives the statements, `InsertText.ParseLosesNothingIff` and
  `StatementRows.OnlyRowsAreLostIff` the exact conditions on the text.
- A shard may be accepted although it observed another shard's cases, but only when
  no suite lists the cases of two shards; the exact condition on the contract is
  `OwnCases.OwnCasesGuaranteedIff`.
- A parameter without a name is accepted by PostgreSQL but loses its first word here
  (`SignatureRoundTrip.UnnamedParameter`).
- A comment separates two words in SQL; here a block comment leaves nothing, so
  `a/**/int` is one word and refused (`SignatureRoundTrip.CommentBehindName`). The
  exact condition is `SignatureGlue.LaidParameterParsesIff`.

## Model

| member | source | states |
|---|---|---|
| `CorpusRetain.PickBest` | scripts/dvm_corpus_retain.py:56-62 | The inner loop returns the scenario with the most new keys, ties going to the least name, and none exactly when no scenario brings a key. |
| `CorpusRetain.GreedySetCover` | scripts/dvm_corpus_retain.py:51-69 | Every name is the best choice over what was left when it was picked; the selection covers every key of the corpus; the redundant list is the sorted rest. |
| `CorpusRetain.SelectionIsUnique` | scripts/dvm_corpus_retain.py:51-69 | The greedy selection is determined by the coverage alone. |
| `Ordering.LessIff` | scripts/dvm_corpus_retain.py:56-62 | The order of names: the first character in which two names differ decides, and a name comes before every longer one that it begins. |
| `CorpusRetain.SameKeysKeepFirst` | scripts/dvm_corpus_retain.py:56-62 | Of two scenarios with the same keys the one with the later name is never selected. |
| `CoverBound.GreedyIsNearlyOptimal` | scripts/dvm_corpus_retain.py:51-69 | Against any other covering family, the selection is at most H(d) times as long, d being the largest scenario's key count and H the harmonic number. |
| `CorpusRetain.FindCovering` | scripts/dvm_corpus_retain.py:104-114 | The reported files are, in ascending order, exactly the selected files that hold a wanted key which no selected file in front of them holds; together they cover every wanted key that any selected file has. |
| `CorpusRetain.ExplainAll` | scripts/dvm_corpus_retain.py:88-93 | Every redundant scenario is reported with exactly those files, and they cover all its keys: the "covered by: none" text appears only for a scenario without keys. |
| `CorpusRetain.Retain` | scripts/dvm_corpus_retain.py:72-101 | With --apply exactly the selected scenarios and the historical anchors stay on disk; a second run on what is left selects the same list, and no key of the corpus is lost. |
| `CorpusRetain.KeptOnDisk` | scripts/dvm_corpus_retain.py:94-99 | A scenario stays on disk exactly when it is selected or one of the two historical anchors, which are named. |
| `CorpusRetain.RerunIsStable` | scripts/dvm_corpus_retain.py:72-101 | Whatever else is kept beside the selection, the same list is the selection again. |
| `InsertValues.FindValuesIsFirst` | scripts/dvm_shrink.py:135-137 | The search for the word VALUES returns its first whole-word occurrence, in any case, or none when there is none. |
| `InsertValues.ValuesAtIff` | scripts/dvm_shrink.py:135-137 | Six characters are that word exactly when they are the letters of VALUES in any case, with no letter, digit or underscore on either side. |
| `Text.CaseIff` | scripts/dvm_shrink.py:135-135 | Two characters have the same lower form, and the same upper form, exactly when they are the same or one letter in two cases. |
| `Text.CharacterClasses` | scripts/dvm_shrink.py:135-135 | Word characters are letters, digits and the underscore; digits and whitespace are spelled out. |
| `InsertValues.SplitTopLevelTuples` | scripts/dvm_shrink.py:115-130 | The depth-counting loop computes the tuples of the one-character-at-a-time scan. |
| `InsertValues.TuplesAreTuples` | scripts/dvm_shrink.py:115-130 | Every piece returned runs from an open parenthesis to the one that matches it. |
| `InsertValues.TuplesInPlace` | scripts/dvm_shrink.py:115-130 | The text is its tuples in order with the gaps between them and the remaining text behind the last one, for unbalanced text too. |
| `InsertValues.LastTuple` | scripts/dvm_shrink.py:140-145 | The last tuple stands right in front of the text behind the tuples. |
| `InsertValues.ParsedParts` | scripts/dvm_shrink.py:133-145 | All parsed parts together hold no more open parentheses than the statement. |
| `InsertValues.DroppingShrinks` | scripts/dvm_shrink.py:192-205 | Dropping any tuple and rebuilding lowers the number of open parentheses, on every statement: the measure behind termination. |
| `InsertRoundTrip.RoundTripIff` | scripts/dvm_shrink.py:133-145 | A statement rebuilt from well-formed parts parses back to exactly those parts if and only if its suffix holds no complete tuple and no copy of the last tuple. |
| `InsertRoundTrip.RebuiltParsesBack` | scripts/dvm_shrink.py:199-205 | After dropping tuples from a statement whose suffix has no open parenthesis, prefix, remaining tuples and suffix come back unchanged. |
| `InsertRoundTrip.BalancedHasNoOpenSuffix` | scripts/dvm_shrink.py:133-145 | Statements with balanced parentheses meet that condition. |
| `InsertText.ParseLosesNothingIff` | scripts/dvm_shrink.py:133-145 | Taking a statement apart and putting it together keeps its text, commas and whitespace aside, if and only if nothing else stands between its tuples and the text behind the last tuple does not repeat it. |
| `InsertText.DropIsExactIff` | scripts/dvm_shrink.py:192-205 | Dropping any one tuple takes away that tuple where it stands and, separators aside, nothing else, under exactly the same condition. |
| `LostRows.DropLosesUntriedRows` | scripts/dvm_shrink.py:192-205 | When it does not: with five rows, the third holding a parenthesis in a literal and the fourth like the second, dropping the first leaves the second and the fifth; the third and the fourth vanish untried. For every such header and rows. |
| `LostRows.QuotedParenthesis` | scripts/dvm_shrink.py:115-145 | Such a statement is ordinary SQL; one is spelled out. |
| `LostRows.DropLosesClause` | scripts/dvm_shrink.py:192-205 | The other way to lose text, with every parenthesis balanced: in a two-row statement with a clause that holds a parenthesis, dropping the first row drops the words of the clause and turns its parenthesis into a row. |
| `LostRows.ConflictClause` | scripts/dvm_shrink.py:115-145 | INSERT INTO t VALUES (1), (2) ON CONFLICT (id) DO NOTHING is such a statement. |
| `DvmShrink.RemoveCycles` | scripts/dvm_shrink.py:166-174 | Phase (a): every kept step drops one cycle and still fails; with no change, every single cycle was tried and refused; which candidates are tried, and in which order, is that of the backward loop. |
| `DvmShrink.RemoveMutations` | scripts/dvm_shrink.py:177-186 | Phase (b), the same for single mutations: cycles forward, the mutations of each backward. |
| `DvmShrink.RemoveTuples` | scripts/dvm_shrink.py:189-205 | Phase (c), the same for single row tuples: statements forward, the tuples of each backward, while the statement is read anew after every drop. |
| `DvmShrink.Pass` | scripts/dvm_shrink.py:162-210 | A pass without a change has tried and refused every scenario one reduction smaller; the three phases follow each other on one sequence of attempts. |
| `DvmShrink.ShrinkScenario` | scripts/dvm_shrink.py:159-210 | For any replay oracle, flaky ones included: the run ends; the result is reached by single reductions that each reproduced the failure; everything one reduction smaller was refused; result and number of replays are those of the passes, phase after phase. |
| `DvmShrink.ShrinkPredicate` | scripts/dvm_shrink.py:159-210 | With a fixed failure predicate the result fails, nothing one reduction smaller fails, and no cycle or mutation list becomes empty. |
| `DvmShrink.OneSmallerIff` | scripts/dvm_shrink.py:162-205 | One reduction smaller means exactly: the list of cycles a + [x] + b became a + b, or the mutations of one cycle did and the cycle is otherwise the same, or the rows of one initial statement did and it was rebuilt; everything else is unchanged and no list became empty. |
| `ShrinkOrder.AlwaysFailingLeavesTheFirst` | scripts/dvm_shrink.py:159-210 | When every candidate fails, what is left is the first cycle with its first mutation and each statement with its first row, for all scenarios of simple statements: the last ones are dropped first. |
| `ShrinkOrder.LastCycleGoesFirst` | scripts/dvm_shrink.py:166-174 | If only the first attempt of a pass fails and there are several cycles, it is the one without the last cycle. |
| `ShrinkOrder.LastMutationGoesFirst` | scripts/dvm_shrink.py:177-186 | If only the first attempt of phase (b) fails, the last mutation of the first cycle with several is gone. |
| `ShrinkOrder.LastRowGoesFirst` | scripts/dvm_shrink.py:189-205 | If only the first attempt of phase (c) fails, the last row of the first statement with several is gone. |
| `DvmShrink.OneSmallerIsSmaller` | scripts/dvm_shrink.py:162-205 | Every reduction lowers the size, also when a rebuilt statement parses differently from before. |
| `DvmShrink.ChainShrinks` | scripts/dvm_shrink.py:162-205 | The number of accepted reductions is bounded by the size lost. |
| `StatementRows.ChainKeepsStatements` | scripts/dvm_shrink.py:189-205 | Over a whole run the text of an initial statement loses some of its rows where they stand and, separators aside, nothing else, if nothing else stands between its tuples and the text behind them repeats none but the first. |
| `StatementRows.OnlyRowsAreLostIff` | scripts/dvm_shrink.py:189-205 | That condition is exact, for every statement with more than one tuple: in every scenario that some run reaches every drop takes away its row and nothing else, if and only if the condition holds. |
| `DvmShrink.EveryChainIsARun` | scripts/dvm_shrink.py:159-210 | Every chain of reductions is the run of the shrinker on some failure predicate, so a loss that some chain shows is one that some run shows. |
| `Replay.Replayer.constructor` | scripts/shrink_recovery_history.py:226-236 | The log starts with the recorded history as attempt zero. |
| `Replay.Replayer.Replay` | scripts/shrink_recovery_history.py:237-271 | Each candidate adds exactly one log entry: refused without a run when illegal, else what the run answered; the map of successful plans gains it exactly when the recorded signature came back. |
| `Replay.RefusedDoesNotFail` | scripts/shrink_recovery_history.py:237-271 | For an oracle that always answers alike, a refused plan is illegal or does not show the failure. |
| `Replay.ReproducedFails` | scripts/shrink_recovery_history.py:237-271 | and a successful plan is legal and shows it. |
| `MutationPlan.PlanRoundTrip` | scripts/shrink_recovery_history.py:106-128 | Wrapping a plan as a scenario and unwrapping it gives the plan back. |
| `MutationPlan.ScenarioRoundTrip` | scripts/shrink_recovery_history.py:106-128 | Unwrapping and wrapping is the identity on one-mutation-per-cycle scenarios. |
| `MutationPlan.LegalMutationPlan` | scripts/shrink_recovery_history.py:131-144 | The loop over live rows decides legality from the initial rows. |
| `MutationPlan.LegalIff` | scripts/shrink_recovery_history.py:131-144 | A plan is legal exactly when each insert meets a row whose last insert or delete was not an insert (and that did not exist at the start), and each update or delete one that is there. |
| `MutationPlan.LegalFromSeedIff` | scripts/shrink_recovery_history.py:131-144 | From the seed alone: a plan is legal exactly when each operation is an insert if and only if its row is not there; a row nobody touched is there exactly when it is row 0 and the seed is odd, and a touched row exactly when the last insert or delete of it was an insert. |
| `MutationPlan.LegalRowByRow` | scripts/shrink_recovery_history.py:131-144 | Legality is decided row by row, whatever the interleaving. |
| `MutationPlan.LegalPrefix` | scripts/shrink_recovery_history.py:131-144 | Every prefix of a legal plan is legal. |
| `MutationPlan.DroppingAnUpdateStaysLegal` | scripts/shrink_recovery_history.py:131-144 | An update can always be dropped. |
| `RecoveryShrink.ZeroOperands` | scripts/shrink_recovery_history.py:277-286 | The operand pass only simplifies; without progress every single id or value that could be zeroed was tried and refused. |
| `RecoveryShrink.SimplifyKind` | scripts/shrink_recovery_history.py:287-295 | One cycle of the kind pass, including its complexity test against the kind the cycle had at the start: without progress each simpler kind was refused. |
| `RecoveryShrink.SimplifyKinds` | scripts/shrink_recovery_history.py:287-295 | The same over all cycles. |
| `RecoveryShrink.DropCycles` | scripts/shrink_recovery_history.py:273-276 | The scenario shrinker on a history drops cycles only, keeps one mutation per cycle, and leaves no cycle that could be dropped. |
| `RecoveryShrink.Round` | scripts/shrink_recovery_history.py:274-297 | A round without progress leaves a history where everything one step simpler was refused at some attempt; its candidates are those of the scenario shrinker, then the operands cycle by cycle, id before value, then the kinds. |
| `RecoveryShrink.Shrink` | scripts/shrink_recovery_history.py:202-300 | Which of the four ends is reached, exactly; the rounds end; the minimized plan is legal, is backed by a logged run with the recorded signature, and its operations stem in order from recorded ones, with the same source cycle, operands kept or zeroed and kinds no more complex; everything one step simpler was refused; with a deterministic oracle nothing one step simpler is legal and fails alike. |
| `RecoveryShrink.SimplerIff` | scripts/shrink_recovery_history.py:273-295 | One step simpler means exactly: one operation of several is missing, or one operation has its id zeroed, or its value unless it is a delete, or a simpler kind (delete before update before insert), and all else is the same. |
| `RecoveryShrink.EmbedsInOrder` | scripts/shrink_recovery_history.py:273-300 | Each operation of the minimized plan stands at an increasing place of the recorded plan, in the operation it stems from. |
| `RecoveryShrink.StemsIff` | scripts/shrink_recovery_history.py:273-295 | To stem from a recorded operation means: the same source cycle, id and value each kept or zero, and the same kind or a simpler one. |
| `ShrinkOrder.OperandsBecomeZero` | scripts/shrink_recovery_history.py:277-286 | When every candidate fails, the operand pass zeroes id and value of a cycle, but not the value of a delete. |
| `ShrinkOrder.IdGoesFirst` | scripts/shrink_recovery_history.py:277-286 | The first operand tried is the id of the first cycle in which something is not zero: if only that attempt fails, it alone is zeroed. |
| `ShrinkOrder.DeleteGoesFirst` | scripts/shrink_recovery_history.py:287-295 | The first kind tried is delete, in the first cycle that is none. |
| `ShrinkOrder.KindAfterTurn` | scripts/shrink_recovery_history.py:287-295 | When every candidate fails, an insert ends its turn as an update after two replays and an update as a delete after one: the complexity test looks at the kind the turn began with. |
| `SqlScanners.StripSqlComments` | scripts/check_sql_api_policy.py:327-399 | The loop with its four flags computes comment stripping of the shared lexical rules. |
| `SqlScanners.SplitTopLevelCommas` | scripts/check_sql_api_policy.py:402-480 | The loop splits at exactly the commas outside quotes, comments and parentheses. |
| `SqlScanners.FindMatchingParen` | scripts/check_sql_api_policy.py:483-554 | The loop finds the position of the specification, or none. |
| `SqlLexer.EndAtBorder` | scripts/check_sql_api_policy.py:402-554 | Scanning two texts one after the other is scanning their concatenation, unless a token straddles the border. |
| `SqlLaws.SplitIsLossless` | scripts/check_sql_api_policy.py:402-480 | Joining the parts with commas gives the text back, for every text. |
| `SqlLaws.PartsSplitToThemselves` | scripts/check_sql_api_policy.py:402-480 | No part can be split further. |
| `SqlParentheses.ParenthesizedReads` | scripts/check_sql_api_policy.py:402-480 | At every depth, a neutral text in parentheses is read back to the same depth without a top-level comma, and stripping it strips what is between the parentheses. |
| `SqlParentheses.ParenthesizedIsPiece` | scripts/check_sql_api_policy.py:402-480 | So it is one part of the list, whatever commas it holds. |
| `SqlParentheses.CommaInside` | scripts/check_sql_api_policy.py:402-480 | A comma between parentheses does not split the list; the comma behind them does. |
| `SqlLaws.StripCommutesWithSplit` | scripts/check_sql_api_policy.py:327-480 | Stripping the parts and joining them equals stripping the whole text. |
| `SqlLaws.StripAtBorder` | scripts/check_sql_api_policy.py:327-399 | Stripping distributes over concatenation at a token border. |
| `SqlLexer.SlashIsBorder` | scripts/check_sql_api_policy.py:327-399 | Outside quotes and comments no token that began before a slash takes the slash, whatever stands before it. |
| `SqlComments.BlockCommentVanishes` | scripts/check_sql_api_policy.py:327-399 | Behind any text that ends outside quotes and comments, every closed block comment leaves nothing: closed is read off the text alone, by counting the marks that open and close. |
| `SqlComments.ClosedIffBody` | scripts/check_sql_api_policy.py:327-399 | A text closes a block comment if and only if it is a body of characters and further closed comments, with any slashes and stars that are no mark, and then the closing mark. |
| `SqlComments.LineCommentLeavesNewline` | scripts/check_sql_api_policy.py:327-399 | A line comment leaves just its newline; a dash in front of it would itself begin the comment. |
| `SqlLaws.MatchingIffCloses` | scripts/check_sql_api_policy.py:483-554 | From any lexical state inside parentheses: position r is returned if and only if the text up to r closes every level but the last and r is a close parenthesis; so it is the only such position. |
| `SqlParentheses.PairIsSteppedOver` | scripts/check_sql_api_policy.py:483-554 | The search for the close parenthesis steps over a neutral text in parentheses of its own. |
| `SqlParentheses.MatchIsFound` | scripts/check_sql_api_policy.py:483-554 | Behind a neutral text the first close parenthesis is the one found, at the length of that text. |
| `SqlLaws.ArgumentListIsNeutral` | scripts/check_sql_api_policy.py:634-639 | The text between the parentheses of a function is a neutral argument list, and the first one. |
| `SqlSignature.ScanDefaultSeparator` | scripts/check_sql_api_policy.py:240-324 | The loop finds the first equals sign or whole word DEFAULT at top level. |
| `SignaturePieces.DefaultAtCut` | scripts/check_sql_api_policy.py:240-324 | A text without a default shifts the search into what follows. |
| `SignaturePieces.FirstDefault` | scripts/check_sql_api_policy.py:240-324 | In any text of words, spaces, dots and brackets the default starts at the first DEFAULT, in any case, with no letter, digit or underscore on either side, and there is none without such a word: a name like default_value starts none. |
| `SqlParentheses.NoDefaultInPair` | scripts/check_sql_api_policy.py:240-324 | An equals sign or the word DEFAULT inside parentheses starts no default, and neither does the parenthesis. |
| `SqlParentheses.SizedTypeParses` | scripts/check_sql_api_policy.py:600-624 | A parameter whose type has a closed argument list, like numeric(10,2), is one part of the list and keeps the whole of its type. |
| `SqlSignature.SplitFirstToken` | scripts/check_sql_api_policy.py:557-575 | The loop finds the end of a quoted identifier with doubled quotes, or the end of a word, or reports empty text or an unterminated identifier. |
| `SqlSignature.ParseParameter` | scripts/check_sql_api_policy.py:600-624 | One raw parameter is skipped, gives a type spelling, or fails, as comment stripping, default search and mode say. |
| `SqlSignature.ParseCut` | scripts/check_sql_api_policy.py:608-624 | Once the default is off: skipped for OUT and TABLE, the type behind the name or behind mode and name, or the error of a missing token or type. |
| `SqlSignature.ParseIdentityArguments` | scripts/check_sql_api_policy.py:597-626 | The types of all parameters in order, or the first error. |
| `SqlSignature.ParseArgumentsAt` | scripts/check_sql_api_policy.py:634-639 | From the open parenthesis of a function to its identity arguments, or the error of an unterminated list. |
| `SignaturePieces.QuoteIsPlain` | scripts/check_sql_api_policy.py:195-198 | A quoted name, whatever characters it holds, is one token without comment, comma or default to every scanner. |
| `SignaturePieces.LiteralIsPiece` | scripts/check_sql_api_policy.py:708-709 | Every literal that sql_literal writes is one closed piece. |
| `SignatureParameter.LaidParameterParses` | scripts/check_sql_api_policy.py:600-624 | A parameter with any mode, any quoted or non-mode bare name, any type given by its words and any closed default, with gaps of whitespace, closed block comments and line comments between its words: it is one piece of the list and parses to its meaning (skipped for OUT and TABLE, else its type, marked when VARIADIC), if every gap behind the mode, the name and a word of the type holds whitespace or a line comment; the name gap need not behind a quoted name that no quote follows, gaps around an equals sign are free, and the word DEFAULT has to be a word of its own. |
| `SignatureGlue.LaidParameterParsesIff` | scripts/check_sql_api_policy.py:600-624 | That condition is exact for every parameter without a default whose mode, if any, is separate: it is read right if and only if it is skipped, or every gap inside its type separates and so does the gap behind its name, unless the name is quoted and no quote follows. So block comments alone are harmless behind a quoted name and glue two words anywhere else, and then the type read is never the right one. |
| `SignatureGlue.GluedNameIsRefused` | scripts/check_sql_api_policy.py:602-619 | A bare name and a one-word type with only block comments between them are read as one word, and refused. |
| `SignatureGlue.GluedModeIsLost` | scripts/check_sql_api_policy.py:602-619 | A mode and a bare name with only block comments between them are read as one name: the type comes out, but an OUT or TABLE parameter is counted and VARIADIC is forgotten. |
| `SignatureRoundTrip.CommentBehindName` | scripts/check_sql_api_policy.py:602-619 | One empty comment between a name and a one-word type: refused behind the bare name, read right behind the same name in quotes. |
| `SignatureRoundTrip.UnnamedParameter` | scripts/check_sql_api_policy.py:605-619 | Without a name the first word is taken for one: a one-word type is refused, and a longer type loses its first word. |
| `SignatureRoundTrip.UnnamedParameterIsRefused` | scripts/check_sql_api_policy.py:597-626 | So a list with a one-word parameter behind good ones is refused as a whole. |
| `SignatureRoundTrip.SignatureRoundTrips` | scripts/check_sql_api_policy.py:597-639 | A whole list of parameters laid out like that, in any surrounding text, parses to the normalised types of its input parameters in order. |
| `SignatureRoundTrip.PrintedListRoundTrips` | scripts/check_sql_api_policy.py:597-639 | In particular as a printer writes it, with one space between the words. |
| `TypeSpelling.NormalizedAny` | scripts/check_sql_api_policy.py:578-594 | Every spelling, whatever it holds: after whitespace and case are out it is a base in front of all its trailing [] pairs, and normalisation is the alias of the base with the same pairs, behind the variadic mark if there is one. |
| `TypeSpelling.NormalizedName` | scripts/check_sql_api_policy.py:578-594 | A bracket-free name followed by pairs of empty brackets, in any whitespace, becomes the alias of the lower-case name and one [] per pair. |
| `TypeSpelling.AliasInAnyCase` | scripts/check_sql_api_policy.py:127-138 | Each of the nine short names, in any mix of upper and lower case and with any brackets, becomes its full name: bool, float8, int, int2, int4, int8, timestamptz, timetz and varchar. |
| `TypeSpelling.OtherNameStays` | scripts/check_sql_api_policy.py:578-594 | Every other name stays what it is, in lower case. |
| `TypeSpelling.NormalizedVariadic` | scripts/check_sql_api_policy.py:584-594 | The same behind the variadic mark, which stays in front. |
| `CdcCompaction.PrunedByRank` | src/cdc/mod.rs:1520-1537 | Deletion of a change depends only on its rank in its row's own window history and that history's first and last action. |
| `CdcCompaction.CompactKeepsEndpoints` | src/cdc/mod.rs:1516-1541 | For any interleaving of rows, the DELETE leaves exactly the endpoints of each row's history: none, the last, the first, or both. |
| `CdcCompaction.ValidIffAlternating` | verification/cdc_elision.rs:637-675 | A history is valid exactly when each change is an insert where no image stands and else a delete of the image that stands there. |
| `CdcCompaction.EndpointsAreValid` | verification/cdc_elision.rs:637-675 | The endpoints of a valid history are a valid history between the same two row images. |
| `CdcCompaction.WeightIsDifference` | verification/cdc_elision.rs:711-796 | In a valid history the signed sum of an image is its presence at the end less its presence at the start. |
| `CdcCompaction.BucketOfHistory` | verification/cdc_elision.rs:1639-1707 | The bucket of a row's image in the whole buffer is its weight in that row's projected history. |
| `CdcCompaction.CompactionPreservesBuckets` | verification/cdc_elision.rs:2012-2089 | Compaction changes no signed image count, for any row and image. |
| `CdcCompaction.CompactionKeepsLogValid` | verification/cdc_elision.rs:637-675 | A valid buffer stays valid. |
| `CdcCompaction.CompactionPreservesReplay` | src/cdc/mod.rs:1514-1541 | A consumer that replays the compacted window reaches the same table. |
| `CdcCompaction.CompactBufferIsInvisible` | src/cdc/mod.rs:1487-1541 | The gated step, whether or not it compacts, changes neither the replayed table nor any image count. |
| `CdcCompaction.WhenCompacted` | src/cdc/mod.rs:1487-1541 | The step leaves the buffer alone without a unique identity, with a second consumer, or with a truncate mark in the window, and compacts in every other case. |
| `CdcCompaction.CompactIsIdempotent` | src/cdc/mod.rs:1516-1541 | Compacting again deletes nothing, on every buffer. |
| `CdcCompaction.CompactIsSmall` | src/cdc/mod.rs:1514-1515 | At most two changes per row stay in the window. |
| `CdcCompaction.CompactLeavesTheRest` | src/cdc/mod.rs:1533-1535 | Changes outside the window and truncate marks are untouched, in order. |
| `CdcCompaction.HistoryHolds` | src/cdc/mod.rs:1533-1535 | The history of a row is its inserts and deletes behind the last consumed position, up to and including the new one. |
| `CdcCompaction.OnlyWindowIsCompacted` | src/cdc/mod.rs:1533-1535 | A change at or before the consumed position, behind the new one, or a truncate mark is never deleted. |
| `CdcCompaction.BucketsSplitAtCut` | verification/cdc_elision.rs:1492-1531 | Counts of two windows that meet at a cut add up to the whole window. |
| `CdcCompaction.NoTraceIsLeft` | src/cdc/mod.rs:1514-1541 | In any buffer, a row whose window begins with an insert and ends with a delete counts nothing after compaction, for any image and in any window inside. |
| `CdcCompaction.SecondConsumerWouldMissAnImage` | verification/cdc_elision.rs:106-122 | So a second consumer that stops early, where the row holds an image, should count it once and counts it not at all: the single-consumer gate is needed. |
| `DollarQuote.DollarTag` | scripts/convert_matviews_to_pgtrickle.py:22-28 | The first tag of the sequence that the query does not contain; it exists, and the search stops within as many steps as the query has characters. |
| `DollarQuote.SearchIsShort` | scripts/convert_matviews_to_pgtrickle.py:22-28 | A query holding the first n tags has at least n characters. |
| `DollarQuote.TagsAre` | scripts/convert_matviews_to_pgtrickle.py:22-28 | The tags tried: the plain one, then with the numbers from one. |
| `DollarQuote.DecimalReadsBack` | scripts/convert_matviews_to_pgtrickle.py:22-28 | The decimal of a number reads back to it and has no leading zero, so no tag comes twice. |
| `DollarQuote.ConvertCreate` | scripts/convert_matviews_to_pgtrickle.py:76-85 | In the assembled statement, quoted with the first free tag, the next tag behind the opening one closes the quote, what lies between is exactly the query between two newlines, and behind it stands initialize => false exactly when the view was created with no data. |
| `DollarQuote.LiteralReadsBack` | scripts/convert_matviews_to_pgtrickle.py:18-19 | The literal of any text, whatever quotes it holds, reads back to that text and ends where it should. |
| `DollarQuote.NameReadsBack` | scripts/convert_matviews_to_pgtrickle.py:76-85 | In the assembled statement the literal behind name => reads back to the name, and the text behind it is the quoted query and the rest. |
| `ReleaseSuite.FirstFitIsFound` | scripts/run_release_suite.py:88-92 | A test name counts for the first required case whose suffix fits. |
| `ReleaseSuite.FindCaseIff` | scripts/run_release_suite.py:88-92 | The search is an error exactly when a case without :: comes before every case that fits, and finds nothing exactly when all cases have one and none fits. |
| `ReleaseSuite.BelongsIff` | scripts/run_release_suite.py:89-90 | A name fits a case exactly when it is some crate, ::, the binary, a dollar sign and the test. |
| `ReleaseSuite.OnlyMarkIsDropped` | scripts/run_release_suite.py:87-87 | From a name only a number with # in front of it at the very end is dropped. |
| `ReleaseSuite.WordsOfALine` | scripts/run_release_suite.py:24-24 | In the words of the log: a line that ends a required test with one of the five words counts; it is passed exactly for ok, failed exactly for failed, leaked and timeout, skipped exactly for ignored, and never missing. |
| `ReleaseSuite.CaseIsRecognised` | scripts/run_release_suite.py:87-92 | Every run of a required test, first or repeated, in any crate, is recognised as its case; a repetition mark is only what stands behind the last # and is a number. |
| `ReleaseSuite.MachineCaseAttempts` | scripts/run_release_suite.py:74-99 | The matrix of attempts, or the error of a required case without ::. |
| `ReleaseSuite.ColumnsComeBack` | scripts/run_release_suite.py:93-99 | Each case's column of the matrix is its reported statuses in log order, padded with missing. |
| `ReleaseSuite.NoEventIsLost` | scripts/run_release_suite.py:75-92 | The statuses of all cases together are as many as the log lines that count. |
| `ReleaseSuite.MatrixPassesIff` | scripts/run_release_suite.py:285-288 | The matrix is non-empty and all passed if and only if every required case passed in each attempt, the same positive number of times. |
| `ReleaseSuite.PassedMeansOk` | scripts/run_release_suite.py:285-288 | When the matrix passes, every line of the log that ends a required test with one of the five words says ok. |
| `ReleaseSuite.DecideStatus` | scripts/run_release_suite.py:285-363 | The status, overwritten step by step, is passed exactly when the return code is zero and none of the conditions failed. |
| `ReleaseEvidence.ValidateCaseEvidence` | scripts/release_evidence.py:101-130 | The loop and set tests accept exactly the records whose selected and observed cases agree with the contract. |
| `ReleaseEvidence.ValidateAttempts` | scripts/release_evidence.py:144-189 | Attempts are accepted exactly when numbered from one without a gap, as many as the retry count says, each listing exactly the required cases, and, in a passed record, each passed with all its cases. |
| `ReleaseEvidence.ValidateCaseLog` | scripts/release_evidence.py:133-141 | The attempts of a record must be what the log itself yields. |
| `ReleaseEvidence.AcceptedPassIsGenuine` | scripts/release_evidence.py:101-189 | A record accepted as passed has a log in which every required case passed in every attempt, and in which every line of a required case with one of the five words says ok. |
| `ReleaseEvidence.AcceptedIff` | scripts/release_evidence.py:101-189 | With required cases a record is accepted exactly when it is what the log says: the selection, one attempt per row of the matrix numbered from one, the last row as observed, the number of retries; and, if passed, every attempt and case passed. |
| `ReleaseEvidence.AcceptedPassIsUnique` | scripts/release_evidence.py:101-189 | So only one passed record is accepted with a log. |
| `ReleaseEvidence.RunSuite` | scripts/run_release_suite.py:202-417 | From the log to the record: refused exactly when a required case repeats or cannot be compared; a pass exactly when the facts are good and every required case passed, and then every line of a required case says ok; the record is that of the log's matrix, and accepted exactly when some required case was seen, if there are any. |
| `ReleaseEvidence.RecordIs` | scripts/run_release_suite.py:376-417 | The record of a matrix: attempts numbered from one with the rows as cases, each failed exactly when one of its cases did not pass, the last row observed; without a row one empty attempt, and every required case observed as missing. |
| `ReleaseEvidence.RunnerRecordAcceptedIff` | scripts/run_release_suite.py:376-417 | What the runner writes is accepted by the validator if and only if nothing is required or the log reports some required case; so a run without any report is always rejected. |
| `ReleaseEvidence.NothingRequiredIsAccepted` | scripts/run_release_suite.py:376-390 | The single empty attempt written when nothing is required is accepted. |
| `ShardCoverage.CheckShards` | scripts/release_evidence.py:538-590 | The check with its dictionaries accepts exactly the shard results of the specification. |
| `ShardCoverage.RelevantIff` | scripts/release_evidence.py:549-553 | A result counts for the shards exactly when its suite is that of some shard. |
| `ShardCoverage.ShardHasItsResult` | scripts/release_evidence.py:552-577 | When accepted, every shard has exactly one result tagged with its id, and that result carries its suite, its index, its count and its cases as selection. |
| `ShardCoverage.ShardsPartitionTheContract` | scripts/release_evidence.py:545-590 | When accepted, every contract case is observed in exactly one place of one result, and nothing else is. |
| `ReleaseContract.CheckEvidence` | scripts/release_evidence.py:414-590 | The loop over the results, each against its own suite, and then the shard check accept exactly the evidence of the specification. |
| `OwnCases.ListedSuiteObservesItsSelection` | scripts/release_evidence.py:101-130 | A result whose suite lists cases observed exactly those: a swap with another shard is refused by the checks of the result. |
| `OwnCases.ListedShardRanItsOwn` | scripts/release_evidence.py:466-577 | In accepted evidence a shard whose cases some suite of a shard lists observed exactly its own cases, also when results carry the tags of other suites. |
| `OwnCases.UnlistedShardsCanSwap` | scripts/release_evidence.py:552-577 | The results of two shards that no suite lists can change places, and the evidence is accepted as before. |
| `OwnCases.OwnCasesGuaranteedIff` | scripts/release_evidence.py:466-590 | For every contract that can be met: acceptance guarantees that every shard observed exactly its own cases if and only if any two unlisted shards have no cases. |
| `OwnCases.CrossedResultsAreAccepted` | scripts/release_evidence.py:466-590 | A contract of two unlisted shards, for any two names and cases: it is met by results that observed each other's case. |
| `CatalogManifest.NormalizeIsIdempotent` | scripts/catalog_manifest.py:76-83 | Normalising the owner twice is normalising once. |
| `CatalogManifest.OwnerBecomesToken` | scripts/catalog_manifest.py:76-83 | The name of the owner becomes the literal token, at the root, in a list and under a key, and the key stays. |
| `ManifestDiff.NormalizedPlaces` | scripts/catalog_manifest.py:76-83 | Normalising changes the value at every chain of keys on its own and adds, drops and renames no key. |
| `CatalogManifest.RenamedOwnerNormalizesAlikeIff` | scripts/catalog_manifest.py:76-83 | A manifest and its copy under another owner normalise alike if and only if the other name did not occur, is the token, or is the same. |
| `CatalogManifest.CompareTrees` | scripts/catalog_manifest.py:587-620 | The loop over sorted keys extends the three lists as the recursive diff does. |
| `CatalogManifest.EmptyIffEqual` | scripts/catalog_manifest.py:587-620 | The diff is empty exactly when the two trees are equal. |
| `CatalogManifest.CompareIsAntisymmetric` | scripts/catalog_manifest.py:587-620 | Comparing the other way round swaps the two sides. |
| `ManifestDiff.DiffIsExact` | scripts/catalog_manifest.py:587-620 | The diff holds an entry if and only if the trees part that way at some chain of keys: a key only one object has, or two values that differ and are not both objects. |
| `CatalogManifest.OwnerNameDoesNotShow` | scripts/catalog_manifest.py:76-83 | Two installations that differ only in the owner name show no difference if and only if the name was fresh, the token, or the same. |

## Left out

- The Rust engine beyond compaction (parsing, delta queries, refresh, scheduling) is a different system; only the compaction kernel and its DELETE are modelled.
- Source incarnations and transaction ids of captured events are not modelled: one buffer belongs to one incarnation, and a window is a pair of positions.
- The row threshold, the advisory lock and the count of deleted rows around compaction are not modelled.
- DvmShrink.ShrinkScenario: models the mode that keeps SQL boundaries; the literal and schema reductions (d) and (e), which are regular expression substitutions, are not part of this model.
- Reading history files, failure signatures and legacy mutation text by regular expression, running candidates and writing artifacts are not modelled; plans and outcomes are inputs.
- Extraction of coverage keys from scenario files and deletion of files: coverage is an input, and the corpus left behind is a value.
- Text is ASCII for case, letters and whitespace; `isalpha`, `isalnum`, `upper`, `lower` and `\s` on other characters are not modelled.
- The scanners keep four separate flags; the model keeps one mode, since at most one flag is ever set.
- The regular expressions that find CREATE FUNCTION statements and views, policy files, classification, ACL output and database queries of the policy checker are not modelled.
- SignatureGlue.LaidParameterParsesIff: with a default the condition is proved sufficient only (`SignatureParameter.LaidParameterParses`), and behind a glued mode the outcome is stated for bare names (`SignatureGlue.GluedModeIsLost`), because what such text means to the scanners depends on every character of it.
- ReleaseSuite.MachineCaseAttempts: log lines are decoded already; JSON decoding, the summary line and a newline behind a repetition mark are not modelled.
- ReleaseSuite.DecideStatus: the measurement, PostgreSQL version and installation facts are inputs; how they are found in the output is not modelled.
- ReleaseContract.CheckEvidence: of a result it models suite identity, cases, attempts, log and shard; commit, artifact, platform, version, workload, count and measurement checks are not modelled.
- Shape checks of JSON records, digests of logs and artifacts, installation observations and measurement attachments are not modelled.
- ReleaseEvidence.ValidateAttempts: the path, size and digest of each attempt's log file are not checked, because files are not modelled.
- CatalogManifest.CompareTrees: has one kind of number, so the type test that tells 1 from 1.0 or true is left to the constructors of the value type.
- The SQL queries that build a manifest are not modelled.
