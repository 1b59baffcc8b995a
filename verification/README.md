# Release-gate proofs

This project models the release-gate tooling under `scripts/` and proves what its parts
promise. The tooling decides, without running anything, whether recorded statistical
measurements still describe the source tree. The model follows four lines of argument.

1. **The Rust lexer and what rests on it.** `RustLexer` specifies the scanner on the text
   still to be read and proves the loop over offsets and buffers against that. `LexerExtents`
   and `LexerRegions` say what each token and each view is without the scanner's functions.
   `LexerViews`, `LexerSteps` and `LexerIdempotence` prove what the four views keep and that
   lexing a blanked view changes nothing. `RustTokens` adds the token scan; `CodeTokens`,
   `TokenReading` and `TokenPrinting` say what its tokens are and that printed tokens are read
   back. `UseTrees` is the expansion of grouped `use` paths. `DocGaps`, `TokenCuts`,
   `TokenGaps`, `TokenEdits`, `AlignedTokens`, `DocEdits` and `DocEditsExample` compare two
   lexer runs and two token scans over texts that differ in whole `///` lines, line up the
   lexer's tokens with those of the token scan, and decide when such an edit keeps the token
   stream; `EditFields` says which edits are accepted.
2. **The coverage decision.** `Binomial` holds the exact probabilities, `Tails` the loop
   over them with its early break, `Decision` the complement branch, the two-sided p-value and the cutoff,
   `PValues` what they are as sums of probabilities, `FamilyRisk` the family-wise error bound.
   `DecisionAudit`, `AuditLoop` and `AuditRisk` model the audit of measurement logs (with
   `FiniteSums` for sums over sets of decisions); `AuditFields` says what an accepted log
   holds, field by field.
3. **Attestation.** `Globs` and `Surfaces` derive facets, `Narrowing` checks one surface list
   against the next, `Attestation` and `Verdicts` assess drift, apply waivers, tally and judge.
   `GlobItems` and `FacetFields` describe patterns, facets and standing records from their raw
   texts and fields (`LastCut` holds the last `::` of a text). `CrateClosure` closes crate
   dependencies in place.
4. **Kernels.** `Prerequisites` (depth-first cycle detection), `PyClosure` (a worklist), `Limits`
   (a bounded evaluator with an alias guard), `CostFit` (a clamped least-squares fit); `Reach`
   defines reachability for all of them.

Code that updates state step by step is a method or a class here, proved against a function
or a predicate; the main results are lemmas over all inputs about those functions, or the
methods' own postconditions where these say it outright. Where a method and its specification
share a function, a theorem says what that function computes with the characters, operators,
probabilities and fields written out in its statement. Characters are code points, integers
are unbounded, and every floating-point value is an exact real.

## Where the code does less than it says

* `documentation_edits_match` is meant to accept only edits that leave the program alone. It
  accepts some that change the token stream: when a stray quote, the number `1.` or the start
  `r#` of a raw identifier directly precedes a raw literal, `tokens` reads the raw prefix into
  the token before it and then scans the rest as an ordinary string, which can run over the
  comment. `DocEditsExample` gives an edit for each of the three, `DocEdits.EditsKeepTokens` the
  exact condition, and `DocEdits.EditsKeepTokensApart` a condition on the old text alone under
  which every accepted edit is safe.
* `surface_narrowing_problems` is documented as conservative. It misses a dependency that a
  record loses because its own test file moves to `core` while a neighbour in the old facet
  stays. `Narrowing.NarrowingMisses` is the example, `Narrowing.NarrowingKeepsDependencies` the
  exact condition.
* `closure_nodes` lists a chained constant assignment once for each of its names
  (`PyClosure.ChainedTwice`). `PyClosure.EveryNodeOnce` says for which trees no node is ever
  listed twice, and `PyClosure.FunctionsOnce` that this holds for every tree without constants.

## Model

| member | source | states |
|---|---|---|
| RustLexer.Lex | scripts/_rust_source.py:45-142 | The loop over offsets, with its search for the next special token, produces for every text, terminated or not, the views and documentation spans of the suffix specification |
| RustLexer.BlockEnd | scripts/_rust_source.py:97-110 | The nested-comment loop stops where the nesting depth returns to zero, or at the end of the text, and passes every newline on to the code view |
| RustLexer.StringEnd | scripts/_rust_source.py:111-118 | An ordinary string ends after the first quote that no backslash hides, and is unterminated otherwise |
| RustLexer.RawEnd | scripts/_rust_source.py:129-134 | A raw literal ends with the first quote followed by its number of hashes, and is unterminated otherwise |
| RustLexer.FindSpecial | scripts/_rust_source.py:22-23 | The search stops at the first offset where a comment, a literal or a quote may start |
| RustLexer.Buffers.Emit | scripts/_rust_source.py:54-58 | Plain text is appended to all four views |
| RustLexer.Buffers.BlankComment | scripts/_rust_source.py:60-64 | The three offset-preserving views gain a blank for every comment character and keep its newlines; the code view is untouched |
| RustLexer.Buffers.BlankLiteral | scripts/_rust_source.py:66-71 | Each view gains its own form of the literal, the delimiters of `kept_skeleton` included |
| RustLexer.TakeComment | scripts/_rust_source.py:90-110 | A comment advances the scan and records a documentation span exactly for three slashes that are not four |
| RustLexer.TakeLiteral | scripts/_rust_source.py:111-135 | A raw or ordinary literal advances the scan past itself and leaves all views caught up |
| RustLexer.TakeQuote | scripts/_rust_source.py:119-127 | A quote is a character literal or plain text, decided by what follows it |
| LexerExtents.StepMeans | scripts/_rust_source.py:22-23 | A text starts with a token of kind and length n if and only if its first n characters are one: a line up to its newline, a comment up to where its marks balance, a raw literal up to the first quote with its hashes, a string up to the first quote after an even run of backslashes, a character literal in one of its four written-out forms, or plain code up to the next place one of these may start |
| LexerRegions.LexMeans | scripts/_rust_source.py:45-142 | However a text is cut into such tokens, the four views are those tokens shown by kind, character by character, and the documentation spans are the line comments with three slashes and not four |
| LexerRegions.CutExists | scripts/_rust_source.py:73-142 | Every text, terminated or not, can be cut into tokens |
| LexerRegions.CutsOnce | scripts/_rust_source.py:73-142 | A text can be cut into tokens in only one way |
| LexerViews.ViewsAlign | scripts/_rust_source.py:26-142 | For every text, `kept`, `kept_skeleton` and `skeleton` are successive blankings of it at unchanged offsets that keep every newline; `code` has as many newlines as the text; the documentation spans are ordered, disjoint, run to the end of a line, start with `///` but not `////`, and are blank in `kept` |
| LexerSteps.StepPrefix | scripts/_rust_source.py:73-135 | A token other than plain code is decided by its own characters: any text that starts with them gives the same token; for a token that reaches the end of its text the claim covers that text alone, after any character before it of the same class |
| LexerIdempotence.LexIdempotent | scripts/_rust_source.py:45-142 | Lexing `kept` gives the same `kept` and `skeleton`, and lexing `skeleton` gives the same `skeleton`, for every text |
| RustTokens.TokenTuple | scripts/_rust_equivalence.py:60-109 | The token loop returns or raises as the recursive token scan does |
| CodeTokens.CodeMeans | scripts/_rust_equivalence.py:19-28 | At a code character a token has length n if and only if n is the longest extent its form allows: a lifetime, an identifier raw or not, a number with its radix or point, exponent and suffix, an operator of the written-out list that no longer one of them extends, or one character |
| TokenReading.LiteralMeans | scripts/_rust_equivalence.py:76-99 | A literal has length n if and only if it is a raw literal up to its first closer, a character literal in a written-out form or a string up to the first quote no backslash hides, each with its optional byte prefix |
| TokenReading.TokensMean | scripts/_rust_equivalence.py:60-109 | `tokens` returns spans if and only if they are a reading: white space skipped, then at each place a literal where the skeleton is blank, a code token elsewhere, and no character beyond ASCII in code; it raises when there is no reading |
| TokenPrinting.PrintedRead | scripts/_rust_equivalence.py:60-109 | Any sequence of code tokens and closed literals, each followed by a space, is returned by `tokens` as it is |
| RustTokens.TokensTile | scripts/_rust_equivalence.py:64-109 | When `tokens` returns, its tokens are the slices of `kept` at non-empty, ordered, disjoint spans, and everything outside the spans is white space |
| RustTokens.TokensOfKept | scripts/_rust_equivalence.py:60-109 | The tokens and spans of a text are those of its `kept` view, raising included: comment contents never reach them |
| DocGaps.LexGaps | scripts/_rust_source.py:73-142 | Two texts that differ only in whole documentation lines have kept views and skeletons that differ only in those lines' blanks, although every later offset shifts |
| TokenEdits.ScanGaps | scripts/_rust_equivalence.py:60-109 | Over two such pairs of views the token scans raise alike, and give the same tokens exactly when no token reaches over a blank that changes |
| AlignedTokens.TokensInStep | scripts/_rust_equivalence.py:60-109 | Where no raw literal of a text directly follows a dot, a quote or a hash and `tokens` returns, no token touches a line or block comment, every token that touches a literal of the lexer is exactly that literal with an optional byte prefix, and every literal is read by a token |
| DocEdits.DocumentationEditsMatch | scripts/calibration_facets.py:797-849 | The loop over replacements, with its `seen` set, offsets and expected lines, accepts exactly the edits that meet every listed condition at once |
| DocEdits.Offsets | scripts/calibration_facets.py:812-815 | Each line's offset is the summed length of the lines before it |
| DocEdits.SplitJoin | scripts/calibration_facets.py:805 | Splitting a text into lines at any of Python's line boundaries and joining them gives the text back |
| EditFields.LinesMean | scripts/calibration_facets.py:805 | The lines of a text are exactly its slices between neighbouring line ends, which stand after each of ten boundary characters, though not inside a carriage return and newline, and at the end of the text |
| EditFields.EditsMean | scripts/calibration_facets.py:797-849 | An edit is accepted if and only if the texts differ in equally many lines, no two rows name one line, each row's `before` and `after` are different lines of the two texts at its number, both blanks, three slashes but not four and no carriage return, at a documentation comment, and every line no row names is the same |
| DocEdits.ExpectedLines | scripts/calibration_facets.py:816-848 | After all replacements the lines differ from the old ones exactly at the listed numbers, and there read as listed |
| DocEdits.EditsKeepTokens | scripts/calibration_facets.py:797-849 | An accepted edit leaves the token stream unchanged, raising included, if and only if `tokens` raises on the old text or no token of it reaches over an edited line whose blanked form changes |
| DocEdits.EditsKeepTokensApart | scripts/calibration_facets.py:797-849 | If no raw literal of the old text directly follows a dot, a quote or a hash, every accepted edit leaves the token stream unchanged, raising included |
| DocEditsExample.EditChangesTokens | scripts/calibration_facets.py:797-849 | For each of the three openings (a quote, a number with a point, a raw identifier's hash) a concrete accepted edit of one comment line for which `tokens` returns different tuples before and after |
| UseTrees.ExpandUse | scripts/_rust_equivalence.py:142-190 | The mutually recursive walk over one shared position returns or raises as the recursive specification does, and ends on every token sequence |
| UseTrees.Walker.Walk | scripts/_rust_equivalence.py:147-185 | A walk moves the position forward and appends exactly the leaves the specification gives for the rest of the tree |
| UseTrees.Walker.Group | scripts/_rust_equivalence.py:156-167 | A group walks its members up to its closing brace, which it takes |
| UseTrees.PrintExpands | scripts/_rust_equivalence.py:142-190 | Printing any well-formed use tree (nested groups, aliases, globs, trailing commas, a leading `::`) and expanding it gives its leaf paths with full prefixes, in order |
| UseTrees.IdentMeans | scripts/_rust_equivalence.py:19 | A name of a path is an identifier, raw or not, and nothing more |
| Binomial.CdfTotal | scripts/calibration_decision.py:131-155 | The binomial theorem: the probabilities of all counts sum to one, for every real success probability |
| Binomial.CdfComplement | scripts/calibration_decision.py:148-155 | The lower tail and the lower tail of the failures make one, which is what the complement branch uses |
| Binomial.ChooseFact | scripts/calibration_decision.py:132-138 | The factorials behind `lgamma` count subsets: C(n,k) k! (n-k)! is n! |
| Binomial.PmfRatio | scripts/calibration_decision.py:140-141 | The loop's factor is the ratio of neighbouring probabilities |
| Binomial.PmfGrows | scripts/calibration_decision.py:140-141 | Below the mean the probabilities strictly grow with the count |
| Tails.LowerDirect | scripts/calibration_decision.py:131-145 | With the early break the loop's value never exceeds the lower tail and is short of it by at most (k-1) times 2^-52, relatively, whenever k is below the mean |
| Tails.PointMassIsPmf | scripts/calibration_decision.py:132-138 | The factorial form of the leading mass is the probability of k successes |
| Tails.TailSums | scripts/calibration_decision.py:139-145 | From any point of the loop on, the mass times the final total is the whole tail, when the loop does not break |
| Tails.BreakCloses | scripts/calibration_decision.py:143-144 | Breaking after the turn for j leaves out j-1 terms, and at most j-1 thresholds of the total |
| Tails.FactorFalls | scripts/calibration_decision.py:140-141 | Below the mean the loop's factor is positive and less than one, so every later term is smaller than the one before |
| Tails.DirectExact | scripts/calibration_decision.py:131-145 | Without the early break the mass times the running total is the sum of the probabilities of 0 to k successes |
| Tails.DirectClose | scripts/calibration_decision.py:140-145 | For any break threshold, the loop's value is positive, at most the lower tail, and short by at most (k-1) thresholds, relatively |
| Decision.LowerExact | scripts/calibration_decision.py:148-155 | Without the early break every branch, degenerate ones and the complement included, gives the lower tail, for all n, k and p |
| Decision.ComplementBelowMean | scripts/calibration_decision.py:153-155 | The complement branch calls the loop strictly below its own mean |
| Decision.LowerClose | scripts/calibration_decision.py:148-155 | With the break the value is within a relative error of n thresholds below the mean and an absolute one above it, never below the truth there |
| PValues.PValueExact | scripts/calibration_decision.py:158-175 | Without the early break the p-value is P(X <= k), or min(1, 2 min(P(X <= k), P(X >= k))) when both sides count, each a sum of probabilities, and it is refused exactly for counts or a probability out of range |
| PValues.PValueNear | scripts/calibration_decision.py:158-175 | With the break the p-value is off from that by at most 2n thresholds, in either direction |
| PValues.PValueBelow | scripts/calibration_decision.py:158-175 | The break never raises the p-value above the tail on the count's own side of the mean |
| PValues.EvaluateExact | scripts/calibration_decision.py:178-208 | In exact arithmetic a decision is made exactly in range, carries its look's weight, and is incompatible if and only if the exact p-value is at most 0.05 times the weight over the cells |
| PValues.EvaluateNear | scripts/calibration_decision.py:178-208 | With the break whatever lies within the share by the slack is called incompatible, and whatever is called incompatible lies within the share times one plus the slack |
| PValues.TailRejected | scripts/calibration_decision.py:158-208 | Break or no break, a count whose exact tail on its own side of the mean is within the share is called incompatible |
| PValues.ConfigMeans | scripts/calibration_decision.py:70-110 | A configuration is valid if and only if its fields are the frozen ones: one of the two domains, 64 hexadecimal digits, cells that are groups times three points times the cap, below 2^32, and the three looks |
| PValues.ManifestMeans | scripts/calibration_decision.py:113-128 | A roster's configuration keeps its domain and digest and has a group for each label |
| Decision.EvaluateMeans | scripts/calibration_decision.py:178-208 | A decision is made exactly for a valid configuration, a registered look, counts within it and a nominal probability; its weight is its look's, and it is compatible exactly when the p-value exceeds its share of the risk |
| Decision.LookFound | scripts/calibration_decision.py:189-194 | Exactly the three planned sizes are registered looks, each with its own weight |
| Decision.ManifestConfigured | scripts/calibration_decision.py:113-128 | A roster yields a configuration exactly when it has between 1 and 5592405 groups |
| FamilyRisk.LowerUniform | scripts/calibration_decision.py:168-170 | A lower-tail p-value is at most x with probability at most x, for every count of trials |
| FamilyRisk.UpperUniform | scripts/calibration_decision.py:171 | So is an upper-tail one, by reflection |
| FamilyRisk.PValueUniform | scripts/calibration_decision.py:158-175 | The computed p-value, one-sided or two-sided, is at most x with probability at most x times one plus n thresholds |
| FamilyRisk.DecisionRisk | scripts/calibration_decision.py:178-208 | For each look and each fixed scored count, a nominally covered cell is called incompatible with probability at most its cutoff (times the slack of the break) |
| FamilyRisk.BudgetSpent | scripts/calibration_decision.py:27-31 | The cutoffs of all cells at all three looks add up to the family's risk exactly |
| FamilyRisk.Marginal | scripts/calibration_decision.py:158-175 | In a finite outcome space the weight of an event about a binomially distributed count is that event's binomial probability |
| FamilyRisk.FamilyWiseError | scripts/calibration_decision.py:178-208 | Under any dependence between cells and looks, when every count is binomial at its nominal probability some cell is called incompatible with probability at most 0.05 (times one plus 20000 thresholds) |
| AuditLoop.AuditLogs | scripts/calibration_decision_logs.py:18-190 | The audit returns exactly when every log is good by itself and all decisions together keep the cap, agree, answer every recheck and end compatible where recordless; it then returns each log's rows |
| AuditLoop.AuditLog | scripts/calibration_decision_logs.py:42-173 | One log adds exactly its rows' decisions to the collections, or shows that the whole audit cannot succeed |
| AuditLoop.AuditRow | scripts/calibration_decision_logs.py:98-155 | A row passes exactly when it reproduces, matches its tally, keeps the cell cap and contradicts no earlier decision; cells, looks and requests then gain exactly that row |
| AuditLoop.CheckRecords | scripts/calibration_decision_logs.py:156-172 | Records pass exactly when each is a named boundary or carries the decision its log binds to it |
| AuditLoop.CheckRequested | scripts/calibration_decision_logs.py:174-181 | Every requested recheck has a strictly later look of the same cell, or the audit raises |
| AuditLoop.CheckFinal | scripts/calibration_decision_logs.py:182-189 | The audit raises exactly when the last look of some recordless cell is incompatible |
| DecisionAudit.ReadTallies | scripts/calibration_decision_logs.py:88-94 | Repeated tally states of one key agree, or the log is rejected |
| AuditFields.DecisionMeans | scripts/calibration_decision.py:211-258 | A stored decision validates if and only if its configuration is the expected frozen one, its weight, p-value within tolerance and compatibility are those its counts give, and its denominator and observed coverage are the recorded ones; only the p-value is then replaced |
| AuditFields.LogMeans | scripts/calibration_decision_logs.py:42-173 | A log is good if and only if its name, header, tallies, rows and records have these fields: every row validates, has a sidecar tally of its key with its `covered`, `scored + skipped`, context and end of attempts, and every record is a boundary or carries the decision of a row |
| AuditFields.AuditedRows | scripts/calibration_decision_logs.py:95-155 | In an accepted audit every row of every log has these fields, and its group is the slug of a roster label |
| AuditFields.ItemMeans | scripts/calibration_decision_logs.py:110-131 | The decision a row contributes is its own with the recomputed p-value, in the cell its log's name and its test, name, nominal probability and record give |
| AuditFields.RequestedMeans | scripts/calibration_decision_logs.py:95-131 | A row asks for a recheck exactly when its log does so for the whole suite or for its test by name |
| AuditFields.UnsupportedRaises | scripts/calibration_decision_logs.py:132-151 | The audit raises whenever some row has no sidecar tally of its key with its counts, context and end of attempts |
| AuditRisk.ItemGenuine | scripts/calibration_decision_logs.py:110-131 | Every decision an accepted audit collected is the protocol's own decision on its counts, at a registered look, in a group of the roster and at one of three points |
| AuditRisk.NeverOverspends | scripts/calibration_decision_logs.py:37-131 | An accepted audit whose family has a group for each roster label collected at most the family's cells, and the risk of its distinct decisions adds up to at most 0.05 |
| Globs.LiteralMatches | scripts/calibration_facets.py:3687-3690 | A pattern without special characters matches itself only |
| GlobItems.PatternMeans | scripts/calibration_facets.py:3687-3690 | A pattern written from items (text, one character, any run, a set or its complement) matches exactly the texts its items take piece by piece |
| GlobItems.OpenBracket | scripts/calibration_facets.py:3687-3690 | A bracket that is never closed stands for itself |
| Surfaces.FindFacet | scripts/calibration_facets.py:330-337 | The loop finds a facet exactly when some line covers the path |
| Surfaces.BestCovers | scripts/calibration_facets.py:330-337 | The facet is that of the longest covering line, the first among equally long ones |
| Surfaces.OrderIrrelevant | scripts/calibration_facets.py:330-337 | When no path is listed twice, the order of the list does not change any path's facet |
| Surfaces.RecordFacets | scripts/calibration_facets.py:720-743 | A record carries exactly `core`, the facets of its own files, and those its fields key |
| FacetFields.FacetMeans | scripts/calibration_facets.py:330-337 | A path lies in a facet if and only if a line of it equals the path or is a directory above it, no such line is longer, and no earlier one is as long |
| FacetFields.OwnPathMeans | scripts/calibration_facets.py:729-732 | The path a test or generator names is everything before its last `::`, or all of it without one |
| FacetFields.CarriesMeans | scripts/calibration_facets.py:720-743 | A record carries a facet if and only if it is `core`, a line of the path before the last `::` of `test` or `dgp` gives it, or a rule's fields all match |
| FacetFields.TestCarried | scripts/calibration_facets.py:729-732 | A record whose test is a path, `::` and a name carries the facet of that path |
| Narrowing.SurfaceNarrowingProblems | scripts/calibration_facets.py:3665-3706 | A problem is reported for exactly the compared paths that left the surface or moved away from `core` and their facet, and the old rules no new rule replaces |
| Narrowing.CoverMatches | scripts/calibration_facets.py:3681-3692 | Patterns that cover the old ones match every value the old ones matched |
| Narrowing.ReplacedMeans | scripts/calibration_facets.py:3681-3705 | A rule is replaced if and only if some rule of its facet names none but its fields and has for each old pattern that pattern, a star, or a pattern that matches it when it has no special character |
| Narrowing.RulesMean | scripts/calibration_facets.py:3676-3679 | The rules compared are one field with its patterns for each `key` and all fields with theirs for each `key_all` |
| Narrowing.KeyedStays | scripts/calibration_facets.py:3694-3705 | With no problem reported, every facet a record carried by a rule it still carries by a rule |
| Narrowing.NarrowingKeepsDependencies | scripts/calibration_facets.py:3665-3706 | With no problem reported, a record keeps every dependency on a compared file if and only if each facet of its own files is still carried or has no compared file left in it |
| Narrowing.OwnKeptSuffices | scripts/calibration_facets.py:3665-3706 | A record whose own test and generator files keep their facets keeps every dependency |
| Narrowing.NarrowingMisses | scripts/calibration_facets.py:3665-3706 | Two lists with no problem between them and a record that nevertheless loses a dependency |
| Attestation.AppliesMeans | scripts/calibration_facets.py:1703-1730 | A waiver applies through facet sets and changed paths exactly when it starts at the record's commit, names every drifted path the record depends on, and no such path differs from its end |
| Attestation.DriftedMeans | scripts/calibration_facets.py:1781-1787 | A record's facets meet the drifted facets exactly when a path it depends on differs from its commit |
| Attestation.DeriveDrift | scripts/calibration_facets.py:1781-1783 | Each facet with a changed path, `core` for paths outside every line, lists exactly its changed paths in their order |
| Attestation.AssessCommit | scripts/calibration_facets.py:1775-1806 | The owed and the waived records of a commit are exactly those whose own state is owed or replayed, when ids are distinct |
| Attestation.FindWaiver | scripts/calibration_facets.py:1788-1805 | The first eligible waiver that excuses the record's drift is taken |
| Verdicts.Assess | scripts/calibration_facets.py:1770-1807 | The records are grouped by commit name, each group once and in order, and every record falls in a group |
| Verdicts.Report | scripts/calibration_facets.py:1843-1884 | Standing, replayed, owed and unverifiable records always add up to all records, and the replay counts are those of the waivers |
| Verdicts.TallyExact | scripts/calibration_facets.py:1843-1884 | With distinct ids each count is the number of records in that state, taken one by one over the whole registry |
| Verdicts.StandsMeans | scripts/calibration_facets.py:1703-1807 | A record stands or is replayed exactly when its commit is known and either nothing it depends on drifted or one valid waiver accounts for all of the drift |
| FacetFields.StandsFields | scripts/calibration_facets.py:1703-1807 | A record stands or is replayed if and only if its commit is known and either no path of a facet its fields carry has drifted or an eligible waiver for its id and commit names every such path and none differs from the waiver's end |
| Verdicts.Attest | scripts/calibration_facets.py:1904-1915 | With distinct ids the verdict is ATTESTED exactly when there are records, no waiver is invalid and every record stands; the counted records are then all of them |
| CrateClosure.CrateDeps | scripts/calibration_facets.py:444-454 | Whatever the iteration order, the in-place passes end with each crate mapped to exactly the names reachable by one dependency edge or more |
| CrateClosure.Widen | scripts/calibration_facets.py:448-451 | One step adds everything the present dependencies lead to in one edge |
| Prerequisites.Visitor.Visit | scripts/check_prerequisites.py:35-46 | A visit leaves the active ids as they were, appends only cycle reports, and keeps: a reported cycle is real, and without a report the visited ids lie on none |
| Prerequisites.Visitor.VisitAll | scripts/check_prerequisites.py:48-50 | After visiting all ids a cycle is reported if and only if the graph has one, whatever the order |
| Prerequisites.CheckList | scripts/check_prerequisites.py:17-30 | One record's list draws a duplicate complaint exactly when it repeats an id, a self complaint exactly when it names itself, and a complaint about each unknown id it names, and no others |
| Prerequisites.CurrentMeans | scripts/check_prerequisites.py:16 | An id repeated among the records stands for the last of them |
| Prerequisites.Problems | scripts/check_prerequisites.py:15-50 | No error is reported if and only if every list is good and the prerequisites have no directed cycle; every reported cycle runs through the id reported, and the other errors are exactly the complaints about the lists |
| Prerequisites.FeatureCycles | scripts/check_prerequisites.py:77-95 | The variant that follows every dependency reports a cycle if and only if there is one, and only ids on a cycle |
| PyClosure.ClosureNodes | scripts/_py_closure.py:37-53 | The worklist ends with the nodes of exactly the definitions reachable from the name, once for each name, the named one first |
| PyClosure.Index | scripts/_py_closure.py:18-34 | Each name stands for the last statement that binds it: a function always, an upper-case assignment target only with `constants` |
| PyClosure.ConstantMeans | scripts/_py_closure.py:15 | A constant's name has upper-case letters, digits and underscores and no digit first |
| PyClosure.WalkMeans | scripts/_py_closure.py:52 | The walk of a statement meets the names it mentions and the names of its targets, and nothing else |
| PyClosure.SharedWanted | scripts/_py_closure.py:18-53 | Wanting one name of a statement bound to several makes its other surviving names wanted, because the walk meets the targets |
| PyClosure.DistinctFrom | scripts/_py_closure.py:37-53 | For a given name a node is listed twice exactly when some wanted name shares its statement with another surviving name |
| PyClosure.FunctionsOnce | scripts/_py_closure.py:37-53 | Without `constants` no node is listed twice, for every tree and every name |
| PyClosure.EveryNodeOnce | scripts/_py_closure.py:18-53 | No node is listed twice whatever name is asked for, if and only if no statement is bound to two names that no later statement binds again |
| PyClosure.ChainedTwice | scripts/_py_closure.py:23-53 | The tree of `A = B = 1`, asked for `A` with `constants`, lists its one node twice |
| Limits.IntegerExpressionMeans | scripts/check_limits.py:29-59 | The evaluator answers v if and only if the expression expands finitely into plain arithmetic of value v whose intermediate values lie in 0..2^63, whose shifts are at most 63 and whose aliases stand at most 64 deep |
| Limits.VisitExpands | scripts/check_limits.py:38-59 | Every answer, under any set of active names, has such an expansion within the depth that is left |
| Limits.ExpansionVisits | scripts/check_limits.py:38-59 | Every such expansion that avoids the active names is evaluated to its ordinary value |
| Limits.ExpansionFresh | scripts/check_limits.py:41-48 | In a finite expansion no constant stands inside itself, so the alias guard refuses none |
| Limits.ActiveIrrelevant | scripts/check_limits.py:29-59 | An answer does not depend on which constants are being expanded |
| Limits.AliasCycleRaises | scripts/check_limits.py:41-48 | An expression from which an alias cycle or an undefined constant can be reached is refused |
| Limits.Pow2Means | scripts/check_limits.py:50-52 | A shift by one place doubles, and shifts by two distances in turn add them |
| CostFit.FitOptimal | scripts/bench_cost_model.py:110-124 | When the costs do not average below zero, the clamped fit is non-negative and no other non-negative pair has a smaller sum of squared residuals, in each of its branches |
| CostFit.FitRaises | scripts/bench_cost_model.py:110-124 | The fit raises exactly without samples, or when every x is zero and the mean cost is negative |
| CostFit.LossMeans | scripts/bench_cost_model.py:110-124 | One sample more adds the square of its cost less the intercept and less the slope times rows times columns squared |
| CostFit.NoSpread | scripts/bench_cost_model.py:117-118 | When every x is the same, the zero slope still solves the centred equation |

## Left out

- Version control, subprocesses, file handling, hashing, TOML and JSON parsing: the attestation model takes a predicate that says whether a path's content differs from a commit's; logs, records and surface lists are parsed values. JSON `null` is an absent field, and missing or unknown fields and values of a wrong type cannot occur in the typed rows.
- `changed_paths`' normalisation of manifests, test scaffolding and certified documentation is inside that predicate.
- `validate_waivers`: the waivers of the attestation model are the ones it has accepted.
- `load_surface`: the lists are given; `Narrowing` assumes of the new list that no `key_all` rule names a field twice, which loading rejects.
- `followup_allocation`, `validate_measurement_selection` and `validate_measurement_construction`: the audit model starts after them.
- The audit's expected configuration and roster labels are given, not read from a commit.
- Six-decimal rendering of a nominal probability in a tally's key is a parameter of the audit.
- Rounding, `lgamma`, `log`, `log1p`, `exp` and `expm1`: reals are exact, and the logarithm of a product is the product. `isclose` keeps its tolerances, over the reals.
- The order in which a syntax tree's walk meets names is not modelled.
- The order of lists made from sorted sets (problems, assessments, facets) and the printed reports are not modelled.
- A log's file name holds no line break.
- The bracket quirk of `fnmatch` that reads `!` as a negation after an empty range is not modelled; every other bracket form is.
- Python's character classes: `isalnum` beyond ASCII is any fixed set of characters; `isspace` and the line boundaries of `splitlines` are listed.
- The lexer's `code` view as a token source, and idempotence of `kept_skeleton`, which an escaped character literal breaks.
- `_uses`, `references`, `definitions`, `anchored_names`, `_caller_proof` and every check of pinned digests or constants: heuristics and literal comparisons.
- Prerequisites.Problems: does not model a `prerequisite_records` that is not a list of strings, which is reported and then still visited.
- Prerequisites.FeatureCycles: does not model the field checks of `feature_problems`, because each is a comparison of one field.
- Attestation.AssessCommit: describes owed and waived records for distinct ids only, because the code keys facets and waivers by id and a repeated id overwrites them.
- CrateClosure.CrateDeps: does not model reading the manifests.
- RustLexer.FindSpecial: models the pattern search by testing the offsets one by one.
