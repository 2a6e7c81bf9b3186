# Squonk: verified models of its hand-tuned algorithms

Squonk is a SQL parser. Around it stand fast forms of simple loops, a lock-free allocator, an interner whose
tables are merged across threads, two forms of one expression parser and the renderer that has to invert it, and
small algorithms that its benchmarks and conformance suites rest on. This project models those algorithms in Dafny
and proves what they are for. `dafny verify dfyconfig.toml` checks all of it.

| file | models |
|---|---|
| `Wrappers.dfy`, `Reals.dfy` | an optional value; products and quotients of reals |
| `Bits.dfy` | machine words as natural numbers; bitwise operators, trailing zeros |
| `Swar.dfy` | eight bytes in a 64-bit word: the equality and range masks of `lexing_spike.rs`, lane by lane, with every borrow and carry |
| `LexScan.dfy` | run skips: byte at a time, over a slice, and a word at a time |
| `LexWalk.dfy` | needle search, quoted-string scanners, and the walks that drive the scanners |
| `Bump.dfy` | the bump allocator: any number of threads taking atomic steps, and the allocator as a class for one thread |
| `Interner.dfy` | the identifier interner, its folded side table, and the dedup map of the benchmarks |
| `Merge.dfy` | worker trees remapped into one shared interner; sharing lines out to workers |
| `Arena.dfy` | a boxed tree and the index arena that replaces it |
| `Pratt.dfy` | precedence climbing by recursion and on an explicit stack, for any binding-power table |
| `Grammar.dfy` | the grammar the climb accepts, as trees that keep their parentheses |
| `Precedence.dfy` | what the climb makes of two operators in a row, and the standard order of the operators |
| `Rendering.dfy` | render-time parentheses: when a rendering parses back, and that no fewer would do |
| `Fit.dfy` | the least-squares fit of the publication script |
| `FxHash.dfy` | the identifier hash |
| `SqlScan.dfy` | the depth-0 word scanner and the statement classifier |
| `Scaling.dfy` | the scaling verdict |
| `Partition.dfy` | classifying corpus statements, writing the supported ones and reading them back |
| `Json.dfy` | the JSON string escaper against section 7 of RFC 8259 |

A method that loops or updates state in the source is a Dafny method proved against a function; the lemmas are about
that function. Integers are unbounded except where the source's width matters, and there the wrap-around is written
out (`Bits.U64`, `Swar.WrappingAdd`, `Arena.Low32`, the saturating depth of `SqlScan.Step`).

## Where the code and what is said about it differ

The models follow the code. Each of these has a lemma that gives a failing input, and one that says exactly when the
code does what is said.

- `bench/examples/lexing_spike.rs:117-118` calls the equality mask exact in every lane. It is exact up to its lowest
  marked lane only: a match also marks the lanes that follow it while they differ from the needle in the low bit
  (`Swar.SwarEqInexact`, `Swar.SwarEqExact`). So the whitespace and identifier skips overshoot when a run
  ends inside a whole word on one of four byte pairs (`LexScan.SpacesOvershoot`, `LexScan.UnderscoreOvershoots`,
  `LexScan.WsSkipExact`, `LexScan.IdSkipExact`). Digit skips, needle search and string scans are right everywhere.
- Lines 429-430 there say all techniques for one class return the same checksum on the same input. The slice form and
  the word-at-a-time digit skip find the same tokens as the byte-at-a-time walk on every input
  (`LexWalk.SlicesSkipAlike`, `LexWalk.DigitsSkipAlike`). The word-at-a-time whitespace and identifier skips do so
  exactly when none of its tokens ends inside a whole word on a smearing pair (`LexWalk.SpacesSkipAlike`,
  `LexWalk.IdentifiersSkipAlike`). Otherwise the checksums differ (`LexWalk.BlanksMiscounted`) unless the sums of
  different ends happen to be equal, so smearing alone does not decide the checksum (`LexWalk.ChecksumsCollide`). In the
  dispatching walk it does, for inputs below 2^32 bytes (`LexWalk.SwarWalksLikeLive`, `LexWalk.BlanksWalkedApart`).
- The two string scanners differ when begun at or past the end of the input (`LexWalk.StringScansAgree`).
- `bench/examples/parallel_compare.rs:90-92` says the merge re-interns every symbol a worker's tree carries, at five
  sites. Trees carry symbols at other sites too: the operator of a prefix operator
  (`crates/squonk-ast/src/ast/expr.rs:1306`), of `ORDER BY .. USING`, of an exclusion constraint, the digits of a large
  positional parameter. Those keep their worker's key, so `SELECT a` and `SELECT @ b` merge into a tree whose operator
  reads `a` (`Merge.PrefixOperatorIsMisread`). A merged tree means what the worker's did exactly when each such symbol
  resolves alike in the worker's table and in the shared one (`Merge.MergeKeepsMeaning`, `Merge.MergedReads`).
- Lines 92-93 there say re-interning in source order reproduces the sequential symbols. The walk's order is not the
  source's: it visits an operator's name before its left operand, and a limit before an offset that is written first,
  so `x OPERATOR(+) y` and `OFFSET y LIMIT x` are numbered differently (`Merge.NamedOperatorIsRenumbered`,
  `Merge.LeadingOffsetIsRenumbered`). Nor does a rewind take back what the parser interned
  (`crates/squonk/src/parser/engine.rs:46-56`): in `CREATE FUNCTION f(TEXT) RETURNS y` the type is tried as a
  parameter's name first, so `y` is numbered later than by the merge (`Merge.TriedNameIsRenumbered`). The two agree
  exactly when whatever the parser interns before a name, kept or dropped, the walk visits before that name too, and
  every symbol the remapper leaves alone has the sequential key already (`Merge.MergeIsSequential`).
- `docs/adr/0008-operator-precedence.md:14` promises that parsing undoes rendering. With minimal parentheses it does
  exactly when no bare left operand ends in a prefix operator that would take what follows
  (`Rendering.CanonicalRoundTrips`); `(a * NOT b) + c` is written `a * NOT b + c` (`Rendering.NotSwallows`). The fully
  parenthesized mode always round-trips.
- `bench/publication/run.py:154` guards R squared against a zero total. The guard never acts: level points have slope
  zero and the quotient at line 152 fails first (`Fit.LevelPointsFail`).
- `conformance/src/corpus_duckdb_verdicts.rs:223` lets the depth fall below zero after an unmatched `)`, and a group
  opened there leaks its words (`SqlScan.UnmatchedClosesShow`). A balanced group is opaque exactly when the depth before
  it is not below zero or its body has no word at the nesting that then stands at depth zero (`SqlScan.GroupsAreOpaque`).
- The comment at lines 193-194 there calls a token a maximal run of word characters. A quote does not end a token, so
  two words with only a quoted span between them are one (`SqlScan.QuotesJoinWords`). The tokens are the maximal runs
  exactly when no two word characters have nothing but quoted spans between them (`SqlScan.WordsAreMaximalRuns`).
- The supported file gives back what was written to it exactly when no statement is blank, is a comment, holds a
  newline or ends in a carriage return (`Partition.RewriteReadsBack`).

## Model

| member | source | states |
|---|---|---|
| Swar.BcastIsFill | bench/examples/lexing_spike.rs:112-114 | the broadcast word holds the byte in every lane |
| Swar.ZeroBytesLane | bench/examples/lexing_spike.rs:119-122 | a lane of the zero-byte trick is marked exactly when the subtraction borrows out of it |
| Swar.SwarEqLane | bench/examples/lexing_spike.rs:116-122 | a lane is marked exactly when it matches, or the lane below is marked and it differs from the needle in the low bit |
| Swar.SwarEqExact | bench/examples/lexing_spike.rs:116-122 | lane k is marked exactly when some match at or below it is followed up to k by bytes with the low bit flipped |
| Swar.SwarEqFirst | bench/examples/lexing_spike.rs:116-122 | up to its lowest marked lane the mask is exact |
| Swar.SwarEqInexact | bench/examples/lexing_spike.rs:117-118 | a word on which the mask is not exact lane by lane |
| Swar.SwarInRangeAsciiExact | bench/examples/lexing_spike.rs:124-139 | the range mask is exact in every lane of every word when both ends are below 0x80 |
| Swar.AddLane | bench/examples/lexing_spike.rs:129-135 | adding at most 0x80 to lanes cleared of the high bit never carries across a lane |
| Swar.LowestMarked | bench/examples/lexing_spike.rs:184-186 | trailing zeros over eight find a mask's lowest marked lane |
| Swar.FirstInWord | bench/examples/lexing_spike.rs:203-207 | the lane found in a word's equality mask is the needle's first, and an empty mask means there is none |
| LexScan.SkipPeek | bench/examples/lexing_spike.rs:87-97 | ends where the run of bytes in the class ends |
| LexScan.SkipSliceIsRunEnd | bench/examples/lexing_spike.rs:99-102 | the slice form ends where the byte-at-a-time form does, on every input |
| LexScan.StopWordsGiveMasks | bench/examples/lexing_spike.rs:141-169 | the three stop words give one verdict bit a lane |
| LexScan.SwarSkip | bench/examples/lexing_spike.rs:171-196 | ends at the first stop: the stop word's verdict inside a whole word, the byte test's in the tail |
| LexScan.SwarSkipExact | bench/examples/lexing_spike.rs:171-196 | a word-at-a-time skip never ends before the run, and ends with it exactly when the run does not end inside a whole word on a smearing pair |
| LexScan.WsSkipExact | bench/examples/lexing_spike.rs:141-196 | so does the whitespace skip, with the pairs 20 21, 09 08 and 0a 0b |
| LexScan.IdSkipExact | bench/examples/lexing_spike.rs:158-196 | so does the identifier skip, with the pair 5f 5e |
| LexScan.DigitSkipExact | bench/examples/lexing_spike.rs:152-196 | the digit skip agrees with the byte-at-a-time form everywhere |
| LexScan.SpacesOvershoot | bench/examples/lexing_spike.rs:141-150 | inputs on which the whitespace skip overshoots |
| LexScan.UnderscoreOvershoots | bench/examples/lexing_spike.rs:158-169 | inputs on which the identifier skip overshoots |
| LexWalk.SwarMemchr | bench/examples/lexing_spike.rs:198-217 | the first index of the needle at or after the start, or none exactly when there is none |
| LexWalk.ScanStringScalar | bench/examples/lexing_spike.rs:226-241 | the scan ends just past the first quote that is not doubled, or at the end |
| LexWalk.ScanStringSwar | bench/examples/lexing_spike.rs:244-259 | so does the search-driven scan, but for a start at or past the end of the input |
| LexWalk.StringScansAgree | bench/examples/lexing_spike.rs:226-259 | the two scans agree exactly when they start inside the input |
| LexWalk.ScanReadsLiteral | bench/examples/lexing_spike.rs:219-241 | a body written with its quotes doubled and closed by a quote is scanned whole, whatever follows |
| LexWalk.ScanFindsLiteral | bench/examples/lexing_spike.rs:219-241 | whatever a scan passes over is such a body, closed or run to the end |
| LexWalk.RunSkipWalk | bench/examples/lexing_spike.rs:431-444 | the sum in 64 bits of the ends of the tokens the skip finds |
| LexWalk.SlicesSkipAlike | bench/examples/lexing_spike.rs:424-430 | the slice form finds the byte-at-a-time form's tokens, for any class on every input |
| LexWalk.DigitsSkipAlike | bench/examples/lexing_spike.rs:424-430 | so does the word-at-a-time form for digits |
| LexWalk.SpacesSkipAlike | bench/examples/lexing_spike.rs:424-430 | the word-at-a-time form for whitespace does exactly when none of those tokens ends inside a whole word on a smearing pair |
| LexWalk.IdentifiersSkipAlike | bench/examples/lexing_spike.rs:424-430 | likewise for identifiers |
| LexWalk.BlanksMiscounted | bench/examples/lexing_spike.rs:429-430 | an input on which the whitespace checksums differ |
| LexWalk.ChecksumsCollide | bench/examples/lexing_spike.rs:429-430 | an input on which the tokens differ and the checksums do not |
| LexWalk.BlendedWalk | bench/examples/lexing_spike.rs:450-477 | the end and checksum are the dispatching walk's |
| LexWalk.StringWalk | bench/examples/lexing_spike.rs:619-634 | the checksum is the sum in 64 bits of the ends of the strings the walk scans |
| LexWalk.WalkFindsLiterals | bench/examples/lexing_spike.rs:617-634 | of a text made of closed literals with other bytes between them, those ends are just past each literal |
| LexWalk.StringWalksAgree | bench/examples/lexing_spike.rs:579-583 | both string scanners walk every input to one checksum |
| LexWalk.WalksEndAtLength | bench/examples/lexing_spike.rs:450-477 | every form of the blended walk ends at exactly the length |
| LexWalk.BranchlessWalksLikeLive | bench/examples/lexing_spike.rs:590-614 | the branchless walk gives the live walk's end and checksum on every input |
| LexWalk.SwarEndsAgree | bench/examples/lexing_spike.rs:446-449 | from any position the word-at-a-time walk finds the live walk's tokens exactly when none of those smears |
| LexWalk.FartherAddsLess | bench/examples/lexing_spike.rs:471-474 | a walk that only passes over some of another's ends sums to less, or finds the same ends |
| LexWalk.SwarTokenFenced | bench/examples/lexing_spike.rs:171-196 | where a word-at-a-time token ends the live walk stops too |
| LexWalk.SwarWalksLikeLive | bench/examples/lexing_spike.rs:590-615 | the word-at-a-time walk gives the live walk's tokens exactly when no live token smears, and below 2^32 bytes its end and checksum exactly then |
| LexWalk.BlanksWalkedApart | bench/examples/lexing_spike.rs:615 | an input on which the two walks differ |
| Bump.AlignUpRounds | bench/benches/alloc_probe.rs:188 | the bit trick rounds up to the next multiple of a power-of-two alignment |
| Bump.RegionObtained | bench/benches/alloc_probe.rs:141-149 | obtaining a region keeps the region invariant: whoever obtained it owns it |
| Bump.RegionInstalled | bench/benches/alloc_probe.rs:150-156 | so does winning the race to publish it |
| Bump.RegionFreed | bench/benches/alloc_probe.rs:157-162 | so does losing it; what is freed was held until then |
| Bump.RegionStep | bench/benches/alloc_probe.rs:134-204 | every step of every thread keeps it |
| Bump.BlockSwapped | bench/benches/alloc_probe.rs:195-202 | a successful swap carves a block above every other and keeps what other threads rely on |
| Bump.BlockMarked | bench/benches/alloc_probe.rs:164-170 | raising the mark keeps the blocks below it, while others allocate |
| Bump.BaseStep | bench/benches/alloc_probe.rs:180-202 | every step of every thread keeps all blocks inside the one published region |
| Bump.BlockStep | bench/benches/alloc_probe.rs:164-204 | every step of every thread keeps the block invariant |
| Bump.RunKeeps | bench/benches/alloc_probe.rs:134-204 | the invariants hold after every run |
| Bump.BlocksAreSound | bench/benches/alloc_probe.rs:180-204 | in every run every pointer handed out and not reclaimed lies in the published region with its whole block, apart from all others, and is aligned, by offset always and by address up to 4096 |
| Bump.OneRegion | bench/benches/alloc_probe.rs:133-162 | in every run every `base` returned the one published region, and at rest every other one obtained was freed once |
| Bump.KeptSurvive | bench/benches/alloc_probe.rs:105-176 | a published region never changes, and blocks below the mark stay apart from all others through any number of resets |
| Bump.GivesUpWhenFull | bench/benches/alloc_probe.rs:187-194 | an allocating thread gives up exactly when its size, from the cursor's next multiple of the alignment on, passes the region's end |
| Bump.AllocRuns | bench/benches/alloc_probe.rs:183-204 | from any state an idle thread's call of `alloc`, run alone, leaves the memory as `Allocator.Alloc` does: the block at the cursor carved, or nothing when it does not fit, however many swaps fail spuriously |
| Bump.MarkRuns | bench/benches/alloc_probe.rs:164-170 | so does its call of `set_mark`: every block there is is kept |
| Bump.ResetServes | bench/benches/alloc_probe.rs:172-204 | after a reset at rest the memory is as `Allocator.Reset` leaves it and the next block is carved at the mark |
| Bump.FreshServes | bench/benches/alloc_probe.rs:125-131 | the first block of all begins with the region |
| Bump.FailedSwapLostToAnother | bench/benches/alloc_probe.rs:195-199 | a swap that fails though not spuriously lost to an allocation that moved the cursor up; otherwise it hands out its block |
| Bump.Allocator.Base | bench/benches/alloc_probe.rs:134-162 | the region is obtained once and returned ever after |
| Bump.Allocator.SetMark | bench/benches/alloc_probe.rs:166-170 | every live block becomes kept |
| Bump.Allocator.Reset | bench/benches/alloc_probe.rs:173-176 | the blocks above the mark are reclaimed, those below stay |
| Bump.Allocator.Alloc | bench/benches/alloc_probe.rs:183-204 | a block is handed out exactly when it fits, aligned, whatever swaps fail spuriously; else nothing changes |
| Interner.Interner.Intern | crates/squonk/src/interner/mod.rs:109-116 | the text is known afterwards, no other is added, and its key is answered |
| Interner.Interner.InternNonkeyword | crates/squonk/src/interner/mod.rs:118-133 | the same answer as interning, for every text that is no keyword's own spelling |
| Interner.Interner.InternKeywordIdent | crates/squonk/src/interner/mod.rs:146-151 | the same answer as interning, for a text that looks up as this keyword |
| Interner.Interner.InternDynamic | crates/squonk/src/interner/mod.rs:153-175 | a known text keeps its key, a new one gets the next |
| Interner.Interner.TryResolve | crates/squonk/src/interner/mod.rs:320-340 | the text of a key, or none past the last key |
| Interner.SymbolsAreStable | crates/squonk/src/interner/mod.rs:331-336 | a text keeps its key and a key its text as the table grows |
| Interner.SymbolResolves | crates/squonk/src/interner/mod.rs:320-329 | a text's key resolves to that text |
| Interner.ResolvedSymbol | crates/squonk/src/interner/mod.rs:94-116 | a key that resolves is its text's key: equal keys are equal texts |
| Interner.TableIsFirsts | crates/squonk/src/interner/mod.rs:153-175 | one fresh interner holds the first occurrences of the texts that are no keywords, in order |
| Interner.BuildFolded | crates/squonk/src/interner/mod.rs:272-302 | the side table names each symbol's folded spelling by its place among the first occurrences |
| Interner.FoldedIdentity | crates/squonk/src/interner/mod.rs:239-242 | a symbol has a folded identity exactly when it resolves, and two symbols share theirs exactly when their texts fold equal |
| Interner.NoIdentityLeftOut | crates/squonk/src/interner/mod.rs:283-298 | the identities in use are those from one up to the number of folded spellings |
| Interner.FillMap | bench/examples/small_throughput.rs:274-284 | the new texts are the first occurrences of those not known, numbered in 32 bits |
| Interner.MapFresh | bench/examples/small_throughput.rs:288-292 | the same from an empty map |
| Interner.Pool.MapReuse | bench/examples/small_throughput.rs:296-300 | a reused map ends as a fresh one, whatever it held |
| Interner.NumbersDetermine | bench/examples/small_throughput.rs:274-300 | that contract leaves one map only |
| Interner.ReplicaNumbersAlike | bench/examples/small_throughput.rs:213-284 | the benchmark's map numbers texts as the interner does, but for the keywords' offset |
| Merge.InternedIsStable | bench/examples/parallel_compare.rs:102-108 | a merged tree keeps its symbols as the shared table grows |
| Merge.InternedResolves | bench/examples/parallel_compare.rs:317-333 | interning a tree and resolving it gives the tree back |
| Merge.SymbolRemapper.Remap | bench/examples/parallel_compare.rs:102-108 | the shared key of the text the worker's symbol resolves to |
| Merge.SymbolRemapper.VisitTree | bench/examples/parallel_compare.rs:111-138 | a visited tree carries the shared symbols of its names, taken in the order of the walk, and its other symbols unchanged |
| Merge.SymbolRemapper.VisitAll | bench/examples/parallel_compare.rs:154-163 | so do statements visited one after the other |
| Merge.MergeBatch | bench/examples/parallel_compare.rs:149-172 | the shared table and the names' symbols are those of one fresh interner fed the names in the order of the walk; other symbols stay as handed over |
| Merge.WorkersHandOver | bench/examples/parallel_compare.rs:88-94 | trees whose names workers interned into any tables of their own stand for the statements they were parsed from |
| Merge.MergedResolves | bench/examples/parallel_compare.rs:317-333 | the names of merged trees resolve to those they were merged from |
| Merge.MergeKeepsMeaning | bench/examples/parallel_compare.rs:317-333 | a merged tree says what the worker's tree said exactly when each symbol the remapper leaves alone resolves alike in both tables |
| Merge.WorkersParse | bench/examples/parallel_compare.rs:242-269 | workers that each parsed a statement into a table of their own hand over the batch the next lemmas speak of |
| Merge.MergedReads | bench/examples/parallel_compare.rs:317-340 | each statement of a merged batch says what was written exactly when its worker's such symbols resolve alike in the shared table |
| Merge.PrefixOperatorIsMisread | crates/squonk-ast/src/generated/visit.rs:27414-27424 | in `SELECT a` and `SELECT @ b`, merged, the prefix operator reads `a` |
| Merge.MergeTellsSources | bench/examples/parallel_compare.rs:88-94 | two batches merge alike exactly when the trees handed over name the same texts and hold the same other keys |
| Merge.MergeIsSequential | bench/examples/parallel_compare.rs:91-94 | the merge reproduces the sequential parse's trees exactly when whatever the parser interns before a name, kept in the tree or dropped, the walk visits before it too, and the symbols left alone have the sequential keys |
| Merge.NamesLeadInOrder | bench/examples/parallel_compare.rs:91-94 | so it does when no symbol is left alone, nothing was tried and dropped, every name stands before its node's children and those stand in the order of the walk |
| Merge.PrefixIffAlike | bench/examples/parallel_compare.rs:91-94 | the table of the walk begins the parser's table exactly under that condition on their orders |
| Merge.NamedOperatorIsRenumbered | bench/examples/parallel_compare.rs:122-125 | an operator written between its operands is numbered before them |
| Merge.LeadingOffsetIsRenumbered | crates/squonk-ast/src/generated/visit.rs:31271-31276 | a limit written after its offset is numbered before it |
| Merge.TriedNameIsRenumbered | crates/squonk/src/parser/ddl.rs:1416-1429 | what follows a text that was tried as a name and dropped is numbered later by the sequential parse |
| Merge.WorkersKeepOrder | bench/examples/parallel_compare.rs:242-269 | however many workers, the trees come back in source order, from no more chunks than workers |
| Merge.BulkThreadsCountAll | bench/examples/parallel_compare.rs:180-205 | no statement is missed or counted twice |
| Merge.BulkCountsStatements | bench/examples/parallel_compare.rs:178-205 | what is counted is the statements of all the lines |
| Arena.BuildBoxed | bench/examples/arena_spike.rs:103-121 | the balanced tree, and the counter moved on by its node count |
| Arena.NumberedInPreOrder | bench/examples/arena_spike.rs:103-121 | its nodes count up from the counter in pre-order, modulo 2^32 |
| Arena.BalancedSize | bench/examples/arena_spike.rs:210-212 | it has as many nodes as the node count says |
| Arena.BuildArena | bench/examples/arena_spike.rs:164-186 | the prefix stays, the nodes are appended, and while indices fit 32 bits they are the boxed tree's in post-order, children first |
| Arena.LaidGrows | bench/examples/arena_spike.rs:164-186 | a tree so laid stays laid as the arena grows |
| Arena.LaidDecodes | bench/examples/arena_spike.rs:164-186 | the root's index decodes to the boxed tree |
| Arena.LaidSums | bench/examples/arena_spike.rs:125-206 | and sums to its sum modulo 2^64, for any folding of the metadata |
| Arena.ArenaTotal | bench/examples/arena_spike.rs:190-206 | a laid tree's sum from its root is that of all values, operators and folded metadata in the stretch of nodes that ends there, modulo 2^64 |
| Arena.WholeArenaTotal | bench/examples/arena_spike.rs:190-206 | on an arena built from empty that is every node's |
| Arena.BoxedTotal | bench/examples/arena_spike.rs:125-138 | a boxed tree's sum is that of all its nodes, modulo 2^64 |
| Arena.BalancedHolds | bench/examples/arena_spike.rs:57-121 | a balanced tree's leaves hold their numbers and its operators the low byte of theirs, with spans to the next number and odd identities |
| Arena.FoldParts | bench/examples/arena_spike.rs:66-72 | the fold of a node's data, sixteen bits at a time |
| Arena.FoldTellsFields | bench/examples/arena_spike.rs:66-72 | no field is lost in it: data that differ in one field alone fold differently |
| Fit.LeastSquares | bench/publication/run.py:134-155 | no other slope and intercept leave as small a sum of squared residuals |
| Fit.FitIsLeastSquares | bench/publication/run.py:134-155 | that is the line a fit that answers gives |
| Fit.RSquaredIsShare | bench/publication/run.py:145-155 | R squared is in [0, 1], and 1 exactly when every point is on the line |
| Fit.RSquaredIsCorrelation | bench/publication/run.py:145-155 | R squared is the square of the correlation: times the two spreads it is the square of the joint one |
| Fit.FitAnswers | bench/publication/run.py:135-152 | the fit answers exactly when two points have different abscissas and abscissas and ordinates vary together; no points are an error of their own, all else divides by zero |
| Fit.LineIsRecovered | bench/publication/run.py:134-155 | points on a line that is not level give back the line with R squared 1 |
| Fit.LevelPointsFail | bench/publication/run.py:152-154 | level points fail, so the guard for a zero total never acts |
| Fit.ResidualExcess | bench/publication/run.py:140-148 | any line's residuals exceed a normal line's by the squares of how far apart the two are at the points |
| FxHash.AddWordInjective | crates/squonk/src/interner/fast_hash.rs:54-61 | a step is injective in the state and in the word |
| FxHash.AddWordMixes | crates/squonk/src/interner/fast_hash.rs:34-61 | what a step multiplies by the seed, bit by bit: the word's bit, the other one where the state has a one five bits below |
| FxHash.ChunksDescend | crates/squonk/src/interner/fast_hash.rs:65-84 | the chunks are of eight bytes, then at most one of four, one of two and one of one |
| FxHash.LoadLane | crates/squonk/src/interner/fast_hash.rs:71-83 | a chunk's bytes are the word's lowest, in the machine's order |
| FxHash.ChunksPartition | crates/squonk/src/interner/fast_hash.rs:65-84 | the chunks partition the input |
| FxHash.SameCuts | crates/squonk/src/interner/fast_hash.rs:65-84 | where they are cut depends on the length alone |
| FxHash.FxHasher.Write | crates/squonk/src/interner/fast_hash.rs:65-84 | the state is folded over the chunks in order |
| FxHash.NoCollision | bench/examples/small_throughput.rs:232-258 | strings of one length that differ inside one chunk never collide, from any state, on either byte order |
| FxHash.HashInjectiveInState | bench/examples/small_throughput.rs:232-258 | hashing a string is injective in the state before it |
| SqlScan.Depth0WordTokens | conformance/src/corpus_duckdb_verdicts.rs:195-239 | the tokens of the scanner's states |
| SqlScan.ReadsWords | conformance/src/corpus_duckdb_verdicts.rs:193-194 | words with a blank after each are the tokens, in upper case |
| SqlScan.WordsAreUpper | conformance/src/corpus_duckdb_verdicts.rs:189-194 | no token holds a small letter |
| SqlScan.CaseDoesNotMatter | conformance/src/corpus_duckdb_verdicts.rs:225-249 | texts that differ only in the case of ASCII letters have the same tokens and the same production |
| SqlScan.WordCharsAre | conformance/src/corpus_duckdb_verdicts.rs:225 | the characters of words by their codes |
| SqlScan.QuotedSpanVanishes | conformance/src/corpus_duckdb_verdicts.rs:201-212 | a quoted span leaves no trace among the words |
| SqlScan.QuotesJoinWords | conformance/src/corpus_duckdb_verdicts.rs:193-212 | so words with only a quoted span between them are one token |
| SqlScan.WordsAreMaximalRuns | conformance/src/corpus_duckdb_verdicts.rs:189-194 | the tokens are the maximal runs of word characters at depth zero outside quotes, in upper case, exactly when no two of those characters have only quoted spans between them |
| SqlScan.InsideGroup | conformance/src/corpus_duckdb_verdicts.rs:213-230 | a text moves the depth and the quote as it nests, and leaves no word exactly when it has none at the level that stands at depth zero |
| SqlScan.GroupsAreOpaque | conformance/src/corpus_duckdb_verdicts.rs:189-194 | emptying a balanced group after text outside quotes keeps the words exactly when the depth is not below zero or the body has no word at the level that then stands at depth zero |
| SqlScan.ClosesLower | conformance/src/corpus_duckdb_verdicts.rs:219-224 | unmatched closing parentheses take the depth down, to the least 32-bit integer and no further |
| SqlScan.UnmatchedClosesShow | conformance/src/corpus_duckdb_verdicts.rs:219-228 | an input on which it does not |
| SqlScan.ProductionIgnoresGroups | conformance/src/corpus_duckdb_verdicts.rs:249-338 | emptying one keeps the production wherever it keeps the words |
| SqlScan.ParenIsSelect | conformance/src/corpus_duckdb_verdicts.rs:249-254 | a text that opens with a parenthesis after white space is a query |
| SqlScan.WordsGiveProduction | conformance/src/corpus_duckdb_verdicts.rs:249-278 | a statement written in words, in either case, has the production of its words in upper case |
| SqlScan.TableForms | conformance/src/corpus_duckdb_verdicts.rs:371-376 | a table is created from a query exactly when an `AS` stands outside parentheses; the other lemmas whose names end in Forms say what each leading keyword selects, for all 43 productions and whatever follows it |
| SqlScan.MoveForms | conformance/src/corpus_duckdb_verdicts.rs:394-403 | an `ALTER` that renames nothing and sets a schema, of anything but a database, is a move |
| SqlScan.OtherAlterForms | conformance/src/corpus_duckdb_verdicts.rs:394-408 | one that does neither is told by whether it is of a sequence |
| SqlScan.DuckdbCreateProduction | conformance/src/corpus_duckdb_verdicts.rs:344-386 | the production of a `CREATE`'s object |
| SqlScan.QualifiersDoNotMatter | conformance/src/corpus_duckdb_verdicts.rs:345-371 | qualifiers after `CREATE` do not change it |
| SqlScan.ClauseIsSkipped | conformance/src/corpus_duckdb_verdicts.rs:258-284 | tokens of a clause that begins with `WITH` and holds no verb are skipped |
| SqlScan.WithKeepsProduction | conformance/src/corpus_duckdb_verdicts.rs:258-298 | a leading `WITH` clause of any number of expressions with any balanced bodies keeps the statement's production |
| Scaling.FlaggedByProducts | bench/src/adversarial.rs:228-257 | a step is flagged exactly when it grows from nothing or its cross product outgrows the allowed one |
| Scaling.FlaggedSplits | bench/src/adversarial.rs:279-286 | steps are flagged one by one, in order |
| Scaling.FlaggedHolds | bench/src/adversarial.rs:279-286 | a superlinear step is flagged as often as it occurs, any other never |
| Scaling.AffineIsLinear | bench/src/adversarial.rs:244-286 | a linear curve with any fixed overhead is never flagged on an ascending ladder |
| Scaling.QuadraticIsFlagged | bench/src/adversarial.rs:253-257 | a quadratic step is flagged exactly when the width grows by more than one plus the slack |
| Scaling.QuadraticOnDoublings | bench/src/adversarial.rs:196-205 | on a doubling ladder with slack below one every quadratic step is flagged |
| Scaling.UnflaggedIsBounded | bench/src/adversarial.rs:264-286 | a curve with no step flagged grows no faster than its width and the slack compounded |
| Partition.RewriteSupported | conformance/src/corpus_partition.rs:112-119 | the file is the banner and each statement on its line |
| Partition.LinesAppend | conformance/src/corpus_partition.rs:93-105 | whole lines read the same whatever follows |
| Partition.RewriteReadsBack | conformance/src/corpus_partition.rs:99-119 | reading back gives the statements written exactly when each is clean |
| Partition.CommentsAre | conformance/src/corpus_partition.rs:99-105 | a line is a comment exactly when two hyphens follow its leading white space |
| Partition.BlanksAre | conformance/src/corpus_partition.rs:99-105 | and blank exactly when there is nothing else |
| Partition.CommentsAreSkipped | conformance/src/corpus_partition.rs:99-105 | either is passed over when the file is read |
| Partition.Classify | conformance/src/corpus_partition.rs:130-141 | the classes' lines, in order |
| Partition.ClassHolds | conformance/src/corpus_partition.rs:130-141 | a class holds each of its lines as often as it occurs, and no other |
| Partition.ClassCounts | conformance/src/corpus_partition.rs:143-148 | the classes' sizes add up to the lines |
| Partition.RewriteThenCheck | conformance/src/corpus_partition.rs:150-168 | rewriting makes the staleness check pass exactly when no supported line is blank, a comment or ends in a carriage return |
| Json.JsonEscape | bench/src/compare.rs:205-219 | the characters' escapes one after the other |
| Json.EscapeReads | bench/src/compare.rs:202-219 | read as a JSON string, the escaped string gives the string back, and what follows it |
| Json.EscapeInjective | bench/src/compare.rs:202-219 | no two strings are escaped alike |
| Json.EscapedHasNoControls | bench/src/compare.rs:202-219 | no control character is left |
| Json.EscapedDoesNotClose | bench/src/compare.rs:202-219 | no quotation mark inside it closes the string |
| Json.ShortEscapesAre | bench/src/compare.rs:209-213 | the escapes of one character stand, by their codes, for what section 7 of RFC 8259 says, and there are no others |
| Json.PairReads | bench/src/compare.rs:202-219 | a character above 2^16 may be written as a high and a low surrogate |
| Pratt.Rec.ExprAt | bench/benches/iterative_pratt_ref/mod.rs:356-375 | the recursive climb, from the position on |
| Pratt.Rec.PrefixAt | bench/benches/iterative_pratt_ref/mod.rs:377-408 | the recursive prefix, from the position on |
| Pratt.RecParse | bench/benches/iterative_pratt_ref/mod.rs:412-419 | the recursive parse, errors included |
| Pratt.StartSteps | bench/benches/iterative_pratt_ref/mod.rs:496-529 | beginning an expression on the stack keeps what the parse will answer |
| Pratt.LoopSteps | bench/benches/iterative_pratt_ref/mod.rs:531-556 | so does a step of the loop |
| Pratt.IterParser.ParseTokens | bench/benches/iterative_pratt_ref/mod.rs:487-598 | for every token list and table the explicit stack gives what the recursion gives, whatever an earlier parse left on it |
| Grammar.ReadsGood | bench/benches/iterative_pratt_ref/mod.rs:356-408 | the climb reads every tree of the grammar whole and goes on after it |
| Grammar.ReadByExpr | bench/benches/iterative_pratt_ref/mod.rs:356-375 | whatever the climb reads is such a tree, which nothing after it belongs inside |
| Grammar.ParsesExactlyGood | bench/benches/iterative_pratt_ref/mod.rs:343-419 | the parser accepts exactly the tokens of the grammar's trees and gives them without their parentheses |
| Precedence.TwoOperators | bench/benches/iterative_pratt_ref/mod.rs:356-375 | under any table `a p b q c` groups to the right exactly when q reaches over p's right power; if not it groups to the left, unless that chains two non-associative operators of one level |
| Precedence.PrefixThenOperator | bench/benches/iterative_pratt_ref/mod.rs:389-395 | a prefix operator takes the operator after its operand exactly when that binds as tightly as it demands |
| Precedence.StandardOrder | bench/benches/iterative_pratt_ref/mod.rs:243-277 | under the standard table it groups to the right exactly when q ranks above p in the order of the operators or both are powers, is refused when both are comparisons, and groups to the left otherwise |
| Precedence.StandardPrefixes | bench/benches/iterative_pratt_ref/mod.rs:279-286 | `NOT` reaches over comparisons and what ranks above them, a sign over nothing |
| Precedence.StandardSpelling | bench/benches/iterative_pratt_ref/mod.rs:288-304 | the tokens that spell the operators, level by level |
| Precedence.RefusesCut | bench/benches/iterative_pratt_ref/mod.rs:330-341 | a tree cut off after an operator, with its group left open, or with something after it is refused for what is missing or left |
| Rendering.RendersConcrete | crates/squonk-ast/src/render/nodes.rs:1289-1327 | a rendering is the tokens of a concrete tree that means the expression |
| Rendering.OneTree | docs/adr/0008-operator-precedence.md:16 | a concrete tree is determined by its tokens and what it means |
| Rendering.RoundTripsIfGood | docs/adr/0008-operator-precedence.md:12-14 | under every table a rendering parses back exactly when the tree written is the grammar's |
| Rendering.ParenthesizedRoundTrips | crates/squonk-ast/src/render/nodes.rs:2096-2114 | the fully parenthesized mode round-trips for every tree under every table |
| Rendering.StandardIsRegular | bench/benches/iterative_pratt_ref/mod.rs:243-286 | the standard table's levels do not interleave |
| Rendering.CanonicalRoundTrips | crates/squonk-ast/src/precedence/mod.rs:680-710 | minimal parentheses round-trip exactly when no bare left operand ends in a prefix operator that would take what follows |
| Rendering.FewestParens | crates/squonk-ast/src/precedence/mod.rs:680-688 | no tree of the grammar that means an expression has fewer parentheses than the one written, but for the pairs around a sign under a sign |
| Rendering.ShortestRendering | crates/squonk-ast/src/precedence/mod.rs:680-688 | nothing shorter parses to the expression, but for those pairs |
| Rendering.StandardAgrees | bench/benches/iterative_pratt_ref/mod.rs:243-286 | the standard table is one of those this holds for |
| Rendering.BareWhenReadable | crates/squonk-ast/src/render/nodes.rs:2098-2102 | an expression that can be read without parentheses is written without them |
| Rendering.TwoOperatorsRoundTrip | docs/adr/0008-operator-precedence.md:14 | of two operators every arrangement reads back |
| Rendering.ParensWhereMisread | crates/squonk-ast/src/render/nodes.rs:2160-2176 | of two operators that are not both signs the second is in parentheses exactly when it would be misread without |
| Rendering.SignsStandApart | crates/squonk-ast/src/render/nodes.rs:2223-2224 | no two signs are written one right after the other |
| Rendering.ParenthesizedCounts | crates/squonk-ast/src/render/nodes.rs:2098-2114 | the parenthesized mode has one pair an operator |
| Rendering.NotSwallows | crates/squonk-ast/src/render/nodes.rs:2166-2176 | an expression that does not round-trip |
| Rendering.SignsRoundTrip | crates/squonk-ast/src/render/nodes.rs:2166-2265 | without `NOT` every tree round-trips under the standard table |

## Left out

- LexWalk.BlendedWalk: the vector-instruction forms of the scans are not modelled; their word-at-a-time counterparts are.
- Bump.Step: steps are sequentially consistent, because the source's acquire and release orderings are not modelled; `reset` runs only while no thread is inside the allocator, as the source requires, and one `set_mark` runs at a time, because a late store of another could lower the mark below blocks it was to keep; `realloc` is not modelled, and `dealloc` does nothing.
- Interner.Interner.Intern: running out of 32-bit keys is a panic in the source and a precondition here; the keyword inventory is a parameter that finds each keyword by its own spelling.
- Interner.BuildFolded: the dialect's case folding is a parameter.
- Merge.SymbolRemapper.VisitTree: returns the rewritten tree instead of rewriting it in place, and one node shape stands for all the AST's, with at most one symbol that the remapper rewrites and one that it leaves alone; the walk's renumbering of node ids and spans is not modelled.
- Merge.MergeBatch: the parser is not modelled; a statement is the tree of texts it was parsed to, with the order in which a parser meets each node's parts and the texts of the attempts it gave up among them.
- Arena.BuildArena: past 2^32 nodes the contract says only how many nodes there are, that the prefix stays and which index is returned, because indices are then no longer those of the children.
- Fit.FitLine: floating point is modelled by the reals, without rounding.
- Scaling.AffineIsLinear: likewise.
- Pratt.IterParser.ParseTokens: none of the mini-grammar's lexing is modelled; tokens are the input. Recursion depth and stack capacity have no functional property.
- Rendering.CanonicalRoundTrips: covers binary operators, prefix operators and operands; the production renderer's predicates, casts, postfix operators and extensions are not modelled.
- Rendering.Render: writes tokens, so the blanks between them and the redacted mode, whose parentheses are the canonical ones, are not modelled.
- SqlScan.Step: counting more than 2^31 opening parentheses overflows in the source and is unbounded here.
- The rest of the parser, tokenizer and renderer, timing, reporting, foreign oracles, corpus fixtures and the bootstrap of the publication script.
