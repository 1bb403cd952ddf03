# casei: verified model

`casei` searches a text for a set of literals under Unicode simple case folding. It compiles
the set into one plan, an automaton over fold tokens, and answers `Find` and `Each` through
many fast routes. This project models the compiler and the routes in Dafny and proves that
every route gives the answer of one short specification, on every byte string, well-formed
or not.

Check it with `dafny verify dfyconfig.toml`.

## The specification

- `Utf8`: decoding and encoding of bytes as in section 4 of RFC 3629, with both round trips,
  the grammar, and the order of the encodings, which leave only one encoding.
- `Fold`: the simple-fold orbits of section 3.13 of the Unicode Standard. `SimpleFold` is a
  parameter: a finite permutation of scalars. Its orbits are proved to be finite cycles, and
  folding together the least equivalence that relates each scalar to its successor.
- `Spec`: a text is read as units (scalars; a malformed byte is an opaque unit of its own; in
  an exact search every byte is one). `MatchEnd` says where a pattern that starts at a
  position ends, `FindFrom` is the leftmost match with ties to the lowest pattern index.
- `Greedy`: `EachFrom` is the sequence of `Each`; `EachOnly` shows that it is the only
  sequence in which every emission occurs, none overlap, and no match is missed. `Enumerates` says
  what a caller sees that may stop at any emission.

## The parts

| part | modules |
|---|---|
| words, longest suffixes, outputs | `Automaton`, `Lexer`, `Trie`, `Links`, `Scan` |
| the compiled plan (a class that fills its nodes, links and rows in place) | `Plan` |
| exact scan, decoded scan with its ring of starts, root skips | `Search`, `AsciiSkip`, `Decoded` |
| root pairs, root triples, nibble tables, filtered scan | `Rooms`, `RootFilters`, `TripleFilters`, `TripleMeaning`, `NibbleTables`, `Shufti`, `Filtered` |
| partition of a text into ASCII regions and decoded windows | `Answers`, `Cuts`, `Partition`, `AsciiOnly`, `PartitionOne` |
| when that partition is right, a search it gets wrong, and a version that is always right | `Truncation`, `MissPatterns`, `MissFilters`, `PartitionMiss`, `GuardedPartition` |
| compact two-byte map, tagged anchors, origin gate | `RawMap`, `RawMatch`, `Displacements`, `MultiAnchors`, `RawEach`, `OriginGate` |
| ASCII pairs; root buckets and word certificates | `PairAnchored`, `RootBucket` |
| one pattern: probe, interior window, run, packed confirmations | `Singles`, `FixedAnchor`, `AsciiRun`, `Confirm`, `ConfirmMakers`, `UnicodePairs`, `UnicodeTriples` |
| word-at-a-time skipping | `Bits`, `Swar` |
| the dispatch and `Each` | `Routes`, `Matching` |
| the two implementations the benchmark board compares with | `Oracle` |

## What the code does not do

The partitioned search for several patterns returns a window's hit without looking at where
it starts (plan.go:3561-3563). A window ends `maxBytes` after its last exceptional byte, so a
match that starts behind that byte can be cut off, and a shorter pattern inside it is then
returned in its place. `PartitionMiss.PartitionMisses` is an example: a matcher for the
patterns `abc0wxyz`, `abc0`, `def`, `ghi`, `jlm` and seventeen single wide scalars, and the
text U+3042 `.abc0wxyz` followed by 2036 dots or more. Every gate of the route is proved to
hold: the four roots that ASCII text can reach have one triple each, no filter is left for
other text because the seventeen wide roots have more first pairs than a root filter holds,
no pair anchors are tagged, and the text is long, clean at its end and sparse. The search is
kept as it is, and these things are proved about it:

- `Truncation.RightIffSafe`: for a set of patterns the search is right on every text, for
  every choice of admitted runs, if and only if the set is `TruncationSafe`: no pattern that
  ASCII text can spell and that wins where it stands contains another pattern before its last
  byte. The converse direction builds the text, for which it needs one ASCII byte and one
  other scalar that occur in no pattern. One pattern alone, or patterns of one length, are
  safe (`SingleIsSafe`, `EqualLengthsAreSafe`).
- `Truncation.RightExactly`: for any set, one text is answered right exactly when no
  occurrence that runs past the first window with a hit beats that hit.
- `Truncation.EarlyHitIsExact`: a hit that starts by the end of the window's last run is
  always right.
- `GuardedPartition.FindGuardedASCII`: the coordinator with that test added, its cursor,
  pending gap match and every exit kept, is Find for every set of patterns.

`Matching.Matcher.Find` and `Each` are stated for every set, text and policy: they return
`Answered` and enumerate `Emitted`, which follow the code into the partition. `Accepts` is the
exact condition under which an answer is Find's. Over all texts and policies a matcher is
right if and only if its set is safe or is not left to the partition (`AlwaysExactly`,
`EachAlwaysExactly`); `LeftToPartition` says in numbers and in terms of the patterns what is
left to it. The search for one pattern needs no such condition
(`PartitionOne.FindPartitionedASCIIOne`).

## Conventions

- Gates that weigh text length, density, rarity or the processor decide which of several
  equivalent routes runs. They are arbitrary functions here (`Policy`, `Ranking`), so a
  result holds for every choice.
- The two facts assumed of the fold table are `Fold.FoldsAscii` (two ASCII characters fold
  together only when they are equal or the two cases of one letter) and, for some routes, its
  consequence `FoldsAsciiLetters`. Both hold of Unicode. The example of `PartitionMiss` asks
  for an `Ordinary` table, as Unicode's is (`MissPatterns.LatinIsOrdinary` shows a small one).
- Vector kernels are represented by their portable counterparts, except the SWAR loop, whose
  eight byte lanes are modelled with the borrow that runs between them.
- Integers are unbounded. Limits the code tests are kept (offsets and widths up to 255, eight
  anchors, four offsets, 16 triples, tables of 2^20 transitions, packed parts).
- Bit masks of slots are sets of slot numbers.
- `yield` is a function of the emissions so far; a false value stops.

## Model

| member | source | states |
|---|---|---|
| Utf8.DecodeEncode | plan.go:1467-1479 | Wherever the encoding of a scalar stands, decoding reads that scalar and its width. |
| Utf8.EncodeDecode | plan.go:2044-2054 | A well-formed sequence is the encoding of the scalar it decodes to. |
| Utf8.FormIsChar | plan.go:2044-2054 | Decoding takes exactly the sequences of the grammar of RFC 3629. |
| Utf8.EncodingIsChar | plan.go:1467-1479 | The encodings of scalars are exactly those sequences. |
| Utf8.EncodeOrder | plan.go:1467-1479 | The bytewise order of the encodings is the order of the scalars, so no other encoding has these sequences. |
| Fold.Walked | plan.go:996-1000 | Walking an orbit visits a new scalar of the table at each step, so the loop over an orbit ends. |
| Fold.Orbit | plan.go:1035-1046 | The loop lists the orbit of a scalar exactly, each member once, starting with the scalar. |
| Fold.LeastFold | plan.go:1035-1046 | Folding together is the least equivalence that relates each scalar of the table to its successor. |
| Fold.MaxFoldRuneWidth | plan.go:991-1002 | No encoding in the orbit is longer, and one is as long. |
| Spec.NonContinuationIsBoundary | plan.go:1915-1922 | Every byte that is not a continuation byte is a unit boundary wherever decoding began. |
| Spec.FindIsLeast | audit/rebar/runner/main.go:123-177 | What Find returns is reached by decoding, is the lowest pattern there, and nothing reached before it matches. |
| Spec.FindIs | audit/rebar/runner/main.go:123-177 | Conversely, a reached match with nothing before it is what Find returns. |
| Spec.FindSuffix | matcher.go:94-99 | Searching a suffix and adding its offset is searching the whole from there. |
| Spec.MatchCut | plan.go:3346-3390 | After a cut that splits no unit exactly the matches that end by the cut remain. |
| Spec.MatchWithinSpan | plan.go:935-970 | Every occurrence of a pattern takes at most the summed widest spellings of its units. |
| Lexer.FreshClass | plan.go:1007-1048 | Giving a new token to a whole orbit keeps tokens exactly the classes of fold equality. |
| Lexer.MatchIsWord | plan.go:2039-2073 | A pattern matches at a unit of the text exactly when its token word stands there in the text's tokens, and it ends at the offset behind that word. |
| Automaton.LongestStep | plan.go:2057-2073 | The longest suffix of a text in the trie, read one token on, depends only on the longest suffix so far. |
| Automaton.LongestReset | plan.go:2057-2060 | An unknown token resets the automaton to its root. |
| Automaton.TargetByFailure | plan.go:2062-2072 | Without an edge a state moves where its failure moves, and the failure is strictly shallower. |
| Automaton.IdleToken | plan.go:2830-2844 | After a root-only token whose required successor is absent, history is irrelevant. |
| Automaton.Propagate | plan.go:1656-1659 | Preferring the longer of a node's own and its failure's output gives the longest terminal suffix with the lowest index. |
| Automaton.OutputOfText | plan.go:2865-2873 | The output of a state is the longest pattern that ends at the text read so far. |
| Plan.SearchPlan.MarkOrbit | plan.go:1035-1046 | Exactly the members of the orbit get the token. |
| Plan.SearchPlan.RuneToken | plan.go:1033-1048 | Tokens stay the classes of fold equality, earlier tokens stay, the scalar has a nonzero one. |
| Plan.SearchPlan.PatternToken | plan.go:1007-1031 | The same for the unit at a position, with its size, for scalars and opaque bytes. |
| Plan.SearchPlan.Child | plan.go:944-952 | The edge leads to the node of the parent's word and the token, created when missing. |
| Plan.SearchPlan.EndSpelling | plan.go:961-964 | The fully spelled pattern is recorded: trie, terminals and token words are those of one more pattern. |
| Plan.SearchPlan.Summarise | plan.go:965-970 | The longest pattern and the widest spelling so far, both bounds attained. |
| Plan.SearchPlan.AddPattern | plan.go:925-971 | One more pattern is spelled into the plan, or noted as the lowest empty one. |
| Plan.SearchPlan.FailureOf | plan.go:1644-1655 | The walk down the failure links of the parent ends at the longest proper suffix of the child in the trie. |
| Plan.SearchPlan.Expand | plan.go:1641-1662 | One step of the breadth-first queue links all children of its head and keeps the queue in order of depth. |
| Plan.SearchPlan.LinkNodes | plan.go:1631-1662 | Every node has its failure and its propagated output; the queue holds all nodes. |
| Plan.SearchPlan.FillDense | plan.go:1664-1680 | Every row of the dense table, copied from the failure's row and overridden by edges, holds the target of each transition. |
| Plan.SearchPlan.FillAscii | plan.go:1684-1689 | The ASCII table agrees with the rune map on every ASCII character. |
| Plan.SearchPlan.Step | plan.go:2057-2073 | Reading a token by row or by failure walk gives the same target, and the walk ends. |
| Plan.SearchPlan.constructor | plan.go:915-988 | For every pattern set the plan is valid: tokens, trie, failures, outputs, rows and tight bounds; only units some pattern asks for have a token, and only beginnings of patterns are in the trie. |
| Scan.StepBest | plan.go:2866-2873 | Keeping the earlier start, and on ties the lower index, is the best match read so far. |
| Scan.ScanIsFind | plan.go:2809-2893 | Stopping at the end, or once no earlier start can complete, gives Find. |
| Search.FindExactBytes | plan.go:2592-2618 | The exact scan equals Find over bytes. |
| Search.HaystackToken | plan.go:2039-2055 | The ASCII table, the rune map after decoding, the opaque byte: each branch yields the token of the unit that stands there, and its size. |
| Search.TokenDecides | plan.go:2039-2055 | That token equals the token of a pattern unit exactly when the units fold together, and no pattern unit has token zero. |
| Search.OutputInRing | plan.go:3604-3636 | A ring of at least maxUnits offsets still holds the start of every output. |
| Search.FindNonASCIIDecoded | plan.go:3604-3636 | Going on from any scanned prefix with the ring equals Find of the whole. |
| AsciiSkip.KindOf | plan.go:2018-2037 | The kind is special exactly when the token has one ASCII byte or the two cases of a letter, and then the needle accepts exactly those. |
| AsciiSkip.RootSkipASCII | root_other.go:34-50 | Skips exactly the ASCII bytes before the first high or needle byte. |
| AsciiSkip.PairSkipASCII | root_other.go:288-307 | Skips exactly the positions of two ASCII bytes before the first pair. |
| Decoded.RootShape | plan.go:1702-1729 | The needles describe all roots and, for a pair, their only successor; each is special exactly when the roots, and the successor behind a silent root, allow it. |
| Decoded.SkipRun | plan.go:2829-2860 | Skipping idle bytes at the root keeps the scanned state, one offset per byte. |
| Decoded.FindUnfilteredDecodedLegacy | plan.go:2809-2893 | The folded decoded scan with both root skips and the early exit equals Find on every byte string. |
| Answers.SliceAnswer | plan.go:3289-3301 | Searching a slice between a boundary and a safe cut gives the least occurrence within it. |
| Answers.SliceAnswerAnywhere | plan.go:3318-3335 | For patterns without opaque bytes any slice may be searched, even one that cuts units. |
| Answers.RuneStart | plan.go:1915-1922 | A position that matches a scalar is a boundary from everywhere. |
| Cuts.GroupSeparated | plan.go:3442-3531 | Coalesced runs are separated from the next group by clean bytes and disjoint windows. |
| Cuts.CoalesceExactly | plan.go:3442-3531 | A group is the runs no further than two pattern widths apart; a run that is not admitted rejects it, unless it is far off and beyond the lookahead. |
| Partition.FindASCIIRegion | plan.go:3289-3301 | Triples over a clean region give the least occurrence that starts and ends in it. |
| Partition.WindowLook | plan.go:3546-3563 | With nothing before the window, searching it is searching the whole prefix up to its end. |
| Partition.SearchGap | plan.go:3575-3594 | A gap match is final when it starts before the next window, else it is kept pending and nothing starts before the next cursor. |
| Partition.SearchRound | plan.go:3417-3595 | One round either ends with the partitioned answer or moves to the next group with the invariant: the cursor is a boundary and nothing matches before it. |
| Partition.FindPartitionedASCII | plan.go:3346-3596 | The coordinator, with every fallback exit, answers as `Cuts.Partitioned`: the first window, or else the whole text, that holds a match. |
| Truncation.SafeIsExact | plan.go:3346-3596 | For a safe set the partitioned answer is Find, whatever runs are admitted. |
| Truncation.ShadowedIsWrong | plan.go:3561-3563 | For a set that is not safe, a constructed text gets a wrong answer. |
| Truncation.RightIffSafe | plan.go:3561-3563 | The partitioned search is right on all texts exactly for safe sets. |
| Truncation.RightExactly | plan.go:3561-3563 | For any set, one text is answered right exactly when nothing that runs past the first window with a hit beats that hit. |
| Truncation.EarlyHitIsExact | plan.go:3561-3563 | A window hit that starts by the end of the last run is right for every set. |
| Truncation.EarlyIsUncut | plan.go:3561-3563 | Such a hit is never undercut, so it meets the condition of `RightExactly`. |
| GuardedPartition.WindowTells | plan.go:3561-3563 | A window hit by the end of the last run is the answer; a later one, or none, says that nothing starts by then. |
| GuardedPartition.GuardedRound | plan.go:3417-3595 | With that test a round ends with Find, or moves on with nothing before the cursor and the gap match pending. |
| GuardedPartition.FindGuardedASCII | plan.go:3346-3596 | With that test the whole coordinator is Find for every set of patterns and every choice of runs. |
| Truncation.SingleIsSafe | plan.go:3346-3596 | One pattern alone is safe. |
| Truncation.EqualLengthsAreSafe | plan.go:3346-3596 | Patterns of one length are safe. |
| MissPatterns.LatinIsOrdinary | plan.go:1033-1048 | What the example asks of the fold table can be met. |
| MissPatterns.TokensTell | plan.go:1007-1048 | Two units of the example patterns have one token exactly when they are the same scalar. |
| MissFilters.OneTriple | plan.go:1848-1882 | Below each ASCII root of the example the trie leads to one triple of letters and nothing else. |
| MissFilters.FourKept | plan.go:1759-1773 | Exactly four triples are kept for ASCII text. |
| MissFilters.NoFilters | plan.go:1730-1753 | Neither root pairs nor triples are left for other text. |
| PartitionMiss.NotArmed | raw_byte.go:544-621 | No tagged filter serves the example. |
| PartitionMiss.PlanPasses | plan.go:3277-3283 | The example plan passes the gates on empty, opaque and single patterns and has a generic root. |
| PartitionMiss.MatcherReaches | plan.go:2536-2588 | No route of a matcher for the example comes before the partition. |
| PartitionMiss.TextPasses | plan.go:2667-2800 | The example text passes the gates on length, tail and density. |
| PartitionMiss.PartitionMisses | plan.go:2677-2685 | On the example text such a matcher takes the partition and does not return the pattern that Find returns. |
| AsciiOnly.ZoneMatch | plan.go:2304-2309 | In ASCII text an ASCII needle matches exactly where it is spelled up to case. |
| AsciiOnly.FindASCIIOnlyAnchorWithHigh | plan.go:2255-2280 | The first spelling before any high byte, or the first high byte with no spelling before it, or neither exists. |
| PartitionOne.FindASCIIOnlyRegion | plan.go:2287-2302 | The least occurrence of one needle in an ASCII region. |
| PartitionOne.FindPartitionedASCIIOne | plan.go:3346-3596 | The coordinator for one needle equals Find on every text. |
| PartitionOne.FindASCIIOnlyPartitioned | plan.go:3318-3335 | The entry probe and the coordinator equal Find; a worthwhile text is always handled. |
| RootFilters.SoleContinuation | plan.go:2000-2007 | When a silent root child has one edge, every start of that root goes on with that token. |
| RootFilters.AddRequiredNext | plan.go:1959-1986 | Pairs of root and required successor admit every start of the root; they are entered exactly when they have room. |
| RootFilters.MakeRootFilter | plan.go:1898-2016 | A usable root filter admits every position at which a pattern starts, excluded roots apart. It is given up only for an opaque continuation root, or for a root that has no room, joined or alone, beside entries of other roots; never when sixteen places of each kind hold all entries. |
| RootFilters.AddRoot | plan.go:2008-2012 | A root alone is entered exactly when its spellings have room, and nothing else is entered. |
| RootFilters.SpecialMeans | plan.go:1702-1720 | The root is special exactly when all ASCII characters that start patterns fold together, and there is one. |
| RootFilters.FilterSkipGeneralBytes | root_other.go:206-234 | Stops exactly at the first admitted position. |
| RootFilters.PairSecondSkipBytes | root_other.go:186-197 | Scanning for second bytes passes over no admitted position and stops before one. |
| TripleFilters.Expand | plan.go:1848-1882 | Enters exactly the triples that can be read from a trie node on; it fails exactly when three bytes are not sure to follow or the triples have no room. |
| TripleFilters.MakeTripleFilter | plan.go:1779-1896 | A root is entered exactly when it has a letter, no opaque continuation, three bytes to read and room; the triples are exactly those of the entered roots, and screen them. |
| TripleFilters.MakeFilters | plan.go:1730-1751 | Triples together with the root filter for the other roots nominate every start; triples are kept only when all roots fit. |
| TripleFilters.MakeAsciiTriples | plan.go:1730-1773 | Kept exactly when there are triples, every root with an ASCII spelling fits and some other root does not; then they screen all ASCII starts. |
| TripleMeaning.GoesOnMeans | plan.go:1848-1882 | Three bytes are sure to follow a node exactly when no pattern ends before them, however they are spelled. |
| TripleMeaning.RenderedMeans | plan.go:1848-1882 | The triples of a node are the first three bytes of the spellings of the patterns through it. |
| TripleMeaning.FitsMeans | plan.go:1824-1886 | Which roots have triples, in terms of the patterns and their spellings. |
| TripleMeaning.KeptMeans | plan.go:1759-1773 | Triples are kept for ASCII text exactly when some root has them, every ASCII character that starts a pattern has them, and some pattern starts without. |
| TripleFilters.TripleSkipScalar | root_other.go:264-286 | Stops exactly at the first triple. |
| NibbleTables.TableExact | plan.go:140-160 | Two nibble lookups decide exactly which entries a byte belongs to, also for two cases of a letter. |
| Shufti.MakeTripleShuftiFilter | plan.go:344-383 | Tables for four to eight triples; each slot stands for its triple. |
| Shufti.TripleShuftiExact | plan.go:319-323 | The six tables decide exactly what the comparison triple by triple decides. |
| Shufti.TripleShuftiSkipScalar | plan.go:392-401 | Stops exactly at the first triple. |
| Shufti.MakePairShuftiFilter | plan.go:186-263 | The two groups hold exactly the raw renderings of the filter's pairs, so that the tables decide what the pairs decide. |
| Shufti.PairShuftiExact | plan.go:265-284 | Without one-byte roots the tables decide exactly what the pairs decide; with them, what the pairs decide with case bits set. |
| Shufti.PairShuftiSkipScalar | plan.go:286-306 | Passes over no admitted position, the last byte included, and for pairs alone stops exactly at one. |
| Filtered.StartIsBoundary | plan.go:1915-1922 | Without opaque continuation units every start is a boundary, also for a scan that began inside a rune. |
| Filtered.NothingInProgress | plan.go:3174-3275 | At the root state every occurrence that has started has ended. |
| Filtered.ScanFiltered | plan.go:3174-3275 | For any filter that nominates all starts the filtered scan equals Find. |
| Filtered.FindFiltered | plan.go:3174-3275 | The same for the compiled filters, with the compact map or without. |
| Filtered.OpaqueExactly | plan.go:1692-1701 | The opaque flag is set exactly when some pattern has an opaque continuation byte. |
| Filtered.MakeTables | plan.go:1736-1753 | The tables belong to the filters; triple tables exist exactly for four to eight triples. |
| Filtered.RootFilterSkip | plan.go:3201-3205 | By second bytes, by tables or by comparing pairs, no admitted position is passed over. |
| Filtered.TripleSkip | plan.go:3206-3216 | With tables or without, no triple is passed over. |
| Filtered.ReadMapped | plan.go:3226-3262 | By the compact map with the decoder behind it, or by the decoder alone, the scan reads the same unit. |
| Filtered.FindASCIITripleFilteredRange | plan.go:3057-3096 | Over an ASCII range the triples scan equals Find of the range. |
| Greedy.EachInSequence | matcher.go:83-131 | Every emission occurs with its exact width; each starts behind the starts, and not before the ends, of those before it. |
| Greedy.EachMissesNothing | matcher.go:83-131 | Every match starts strictly inside the bytes of an emission, or where one starts that has no higher pattern. |
| Greedy.EachOnly | matcher.go:72-82 | A sequence has these two properties exactly when it is the one of Each. |
| Greedy.MatchIsUnits | matcher.go:212-219 | A pattern matches exactly when its units fold one by one with the next units of the text. |
| Greedy.MatchIsWalk | matcher.go:212-219 | The consumed width of a match is that of as many units as the pattern has. |
| Greedy.MatcherMatchEnd | matcher.go:212-219 | The loop that measures that width. |
| Greedy.EnumeratesUnique | matcher.go:83-131 | What a caller has seen when it stops is determined by where it stops. |
| RawMap.MakeRawByteTokenPlan | raw_byte.go:35-118 | Lead rows and trail classes share one table without collision and hold the token of every one- and two-byte unit. |
| RawMap.RawByteAdvance | raw_byte.go:134-154 | Succeeds exactly on well-formed units of one or two bytes, with the state and size of decoding and advancing. |
| RawMap.RawOrDecodedAdvance | plan.go:3229-3260 | With the decoder behind it, the same on every input, malformed bytes included. |
| RawMatch.RawByteMatchAt | raw_byte.go:711-740 | The lowest pattern that matches at a position and its width, or none. |
| Displacements.AddRuneWidths | raw_byte.go:360-388 | The width set extended by a scalar holds exactly the reachable displacements; given up exactly when they are too many or too wide. |
| Displacements.PairSetFor | raw_byte.go:325-349 | Exactly the spellings of the scalar; found exactly when there are few and all take two bytes. |
| Displacements.MatchDisplaces | raw_byte.go:360-463 | Between two units of any match lies one of the pattern's displacements. |
| MultiAnchors.RelativeWidths | raw_byte.go:448-463 | For each later unit exactly the displacements from the primary one. |
| MultiAnchors.SelectCandidate | raw_byte.go:468-510 | The chosen anchor is sound for its pattern, however candidates are ranked. |
| MultiAnchors.AnchorShows | raw_byte.go:448-510 | Every match of the pattern shows its primary pair at one of the start widths and its confirming pair at one of the offsets. |
| MultiAnchors.AddAnchor | raw_byte.go:544-621 | The anchor's tables and guard bits are added and those before are kept. |
| RawEach.MakeRawByteMultiAnchorFilter | raw_byte.go:544-621 | A compiled filter is armed: one sound, tabled anchor for every pattern. |
| RawEach.RawByteMultiAnchorSkip | raw_byte.go:678-704 | Passes over no nominated position and returns exactly the nominated tags where it stops. |
| RawEach.TagsAt | raw_byte.go:648-676 | Keeps exactly the tags whose pairs stand there. |
| RawEach.StartShows | raw_byte.go:544-704 | Every start of pattern i is nominated under tag i within maxOffset. |
| RawEach.NextMatch | raw_byte.go:781-839 | Waiting past the best start plus maxOffset loses nothing: the next emission is Find from the cursor. |
| RawEach.EachRawByteFixedAnchored | raw_byte.go:781-839 | The tagged enumeration is the sequence of Each with exact widths, on every text, for every caller. |
| RawEach.FindRawByteFixedAnchored | raw_byte.go:746-754 | Its first emission is Find. |
| OriginGate.GateShows | raw_byte.go:258-323 | Every match has the gate byte within the prefix bound of its start. |
| OriginGate.RawByteOriginGateFor | raw_byte.go:258-323 | A chosen gate byte serves every pattern. |
| OriginGate.BeforeGate | raw_byte.go:759-774 | Nothing starts before the first gate byte less the bound; without one nothing starts. |
| OriginGate.FindRawByteOrigin | raw_byte.go:759-774 | Starting there, possibly inside a rune, equals Find of the whole. |
| PairAnchored.AsciiFoldSpelling | plan.go:1354-1380 | The lower ASCII spelling of a pattern, or a unit no ASCII text can match. |
| PairAnchored.MakeASCIIPairAnchors | plan.go:1427-1463 | Every pattern is empty, unspellable in ASCII, or has an anchor in its spelling. |
| PairAnchored.FilterExact | plan.go:447-489 | The tables admit a position exactly when some anchor's pair stands there, case bits set. |
| PairAnchored.StartShowsPair | plan.go:1427-1463 | In ASCII text every start shows the pair of one of the anchors. |
| PairAnchored.ReplayASCIIAnchorStart | plan.go:3101-3121 | The lowest pattern that matches at a start, the empty one included. |
| PairAnchored.FindASCIIPairAnchored | plan.go:3127-3167 | The pair-anchored search equals Find on ASCII text without NUL. |
| FixedAnchor.LastForm | zz_ascii_interior.go:58-76 | The well-formed unit that ends at a position, if any, and no other ends there. |
| FixedAnchor.RecoverASCIIInteriorStart | zz_ascii_interior.go:58-76 | The unique position from which decoding the given number of units leads to the window. |
| FixedAnchor.MakeASCIIAnchor | plan.go:1056-1199 | Any literal whose first three units are ASCII of fixed width is probed, whatever follows; tokens are compared unless all of it is fixed. |
| FixedAnchor.MakeASCIIEachProbe | plan.go:1206-1236 | Enumeration keeps the probe, or takes the positions 0, 1 and 3 of a wholly fixed needle; both lie in the fixed stretch. |
| FixedAnchor.MatchShows | plan.go:2213-2248 | Every match, whatever its tail, shows the probed window behind its leading units. |
| FixedAnchor.WindowsInOrder | matcher.go:149-170 | Later starts have later windows. |
| FixedAnchor.FindASCIIAnchor | plan.go:2213-2248 | The probe search equals Find, with its own limit when tokens are compared. |
| FixedAnchor.FindASCIIByteAnchor | plan.go:2146-2169 | The search for one byte of the fixed prefix, the probe before comparing, equals Find. |
| FixedAnchor.FindASCIIPairAnchor | plan.go:2195-2211 | The search by the first byte and one other of a fixed needle equals Find. |
| FixedAnchor.AnchoredWidth | matcher.go:172-188 | The reported width is the consumed width, by the ASCII shortcut or measured. |
| FixedAnchor.EachASCIIProbe | matcher.go:136-196 | The probe enumeration is the sequence of Each. |
| AsciiRun.Consume | root_amd64.go:335-366 | One block mask, of any width, extends the carried run or finds the first run. |
| AsciiRun.FindASCIIRunBytes | root_amd64.go:328-404 | The least start of a run of the needed length, or none exists. |
| AsciiRun.FindASCIIRun | plan.go:2075-2080 | For a pattern that repeats one byte this is Find. |
| Swar.BorrowIsSubtraction | root_amd64.go:829-856 | The lanes with their borrow are the subtraction of 0x01 repeated from the whole word. |
| Swar.FlagIsZero | root_amd64.go:829-856 | Up to the first zero lane the flag of a lane says that it is zero. |
| Swar.FirstFlagIsFirstStop | root_amd64.go:829-856 | The lowest flag of a word is its first high or needle byte, whatever the borrow does above. |
| Swar.RootSkipScalar | root_amd64.go:829-856 | Skips exactly the bytes before the first high or needle byte. |
| Swar.RootSkip | root_amd64.go:98-122 | By bytes or by words, the same count, for any text. |
| RootBucket.CompleteTriples | plan.go:1888-1896 | A complete triple set screens every start. |
| RootBucket.MakePrefixes | triple_bucket_amd64.go:41-111 | The trie walk collects every three- or four-token ASCII prefix of a pattern. |
| RootBucket.FillBucket | triple_bucket_amd64.go:124-138 | A slot is set for exactly the bytes its prefix allows, and no other slot is. |
| RootBucket.StartInBucket | triple_bucket_amd64.go:64-146 | Where four ASCII bytes stand and a pattern starts, the bucket admits the position. |
| RootBucket.TripleBucketSkip | triple_bucket_amd64.go:152-168 | Whatever blocks the bucket kernel takes, no start is passed over. |
| RootBucket.MatchAtStart | each_root.go:206-237 | The trie replay finds the lowest pattern at a start and its width. |
| RootBucket.MakeRootASCIIWordCerts | each_root.go:64-107 | Each unit of each pattern is certified by a value and a fold bit that accept exactly its ASCII bytes. |
| RootBucket.Write | each_root.go:42-58 | The written bytes hold the header and every entry. |
| RootBucket.ReadEntry | each_root.go:159-169 | Reading an entry back yields what was written. |
| RootBucket.CompareWords | each_root.go:170-183 | Comparing whole words, the last one masked, compares exactly the units. |
| RootBucket.FitIsMatch | each_root.go:128-187 | On ASCII input a certificate fits exactly where its pattern matches. |
| RootBucket.MatchRootASCIIWordCertData | each_root.go:128-187 | Known exactly when the prefix is complete and ASCII, and then agrees with the trie replay. |
| RootBucket.MatchRootBucketCandidate | each_root.go:239-247 | By certificate or by replay, the same result. |
| RootBucket.EachRootBucket | each_root.go:256-274 | The bucket enumeration is the sequence of Each. |
| Singles.SingleTokens | plan.go:954-956 | The kept tokens are the spelling of the only pattern. |
| Singles.MatchesSingleAt | plan.go:2353-2365 | Comparing tokens accepts exactly the matches. |
| Confirm.FlagsApart | unicode_confirm.go:29-70 | The skipped count and the variable flag share a byte and are never confused. |
| Confirm.RawForms | plan.go:1474-1493 | The spellings of a scalar's orbit, all of them and no others. |
| Confirm.FormIsUnit | unicode_confirm.go:214-266 | A unit matches a scalar exactly when one of its spellings stands there, and that spelling is the whole unit. |
| Confirm.MatchesPartAt | unicode_confirm.go:200-212 | Comparing two-byte values accepts exactly the stored spellings. |
| Confirm.MatchVariable | unicode_confirm.go:219-249 | The cursor that moves by the spelling it matched accepts exactly the matches, with their width. |
| Confirm.FixedIsMatch | unicode_confirm.go:250-265 | Every unit at its fixed offset is a match, and conversely. |
| Confirm.MatchFixed | unicode_confirm.go:250-265 | Checking the parts in stored order, trailing slots last, accepts exactly the matches. |
| Confirm.MatchWithin | unicode_confirm.go:157-198 | Every match is between the summed shortest and the summed longest spellings wide. |
| Confirm.MatchWidthAt | unicode_confirm.go:214-266 | A valid confirmation accepts a position exactly when the pattern matches there and returns its width; an invalid one never accepts. |
| ConfirmMakers.PatternRawForms | plan.go:1465-1498 | The spellings of every unit, an opaque byte having only itself. |
| ConfirmMakers.MakeUnicodePairConfirm | unicode_confirm.go:76-150 | Valid for exactly the literals that fit the fixed layout, and then every unit is stored, the two anchors in the trailing slots. |
| ConfirmMakers.MakeUnicodePairVariableConfirm | unicode_confirm.go:157-198 | Valid for exactly the literals that fit the variable layout, and then all spellings and both width bounds are stored. |
| UnicodePairs.MakeUnicodePairAnchor | plan.go:1536-1591 | Every match shows both two-byte units at their fixed offsets. |
| UnicodePairs.PairPairSkip | root_other.go:161-184 | Stops exactly at the next position where both units stand. |
| UnicodePairs.FindUnicodePairReplayed | plan.go:2433-2463 | The anchored search with token comparison equals Find. |
| UnicodePairs.PairPairConfirmBytes | root_other.go:148-159 | The first candidate that both screens and confirms, with its width, or none among the candidates. |
| UnicodePairs.FindUnicodePairConfirm | plan.go:2400-2431 | Blocks and tail together equal Find, with the exact width. |
| UnicodeTriples.TripleFromForms | plan.go:1500-1529 | The entered triples admit every match that reads on from a unit behind a prefix. |
| UnicodeTriples.MakeUnicodeAnchor | plan.go:1593-1626 | Every match shows one of the triples at the offset. |
| UnicodeTriples.FindUnicodeAnchor | plan.go:2465-2478 | The search by the window with token comparison equals Find. |
| Routes.MakeProbeRoute | plan.go:1056-1199 | A compiled probe route is ready, and there is one when the first three bytes are fixed. |
| Routes.FindProbed | plan.go:2505-2535 | By run, probe, one byte or two, the answer is Find. |
| Routes.MakeUnicodeRoute | plan.go:1593-1602 | The first layout that can pack the pattern confirms it. |
| Routes.FindUnicodePairAnchor | plan.go:2433-2463 | With and without the vector kernel, the answer is Find. |
| Routes.MakeBucketRoute | triple_bucket_amd64.go:64-146 | A compiled bucket route is complete and its certificates are those of the plan. |
| Routes.EachBucket | each_root.go:193-274 | The route's enumeration is the sequence of Each. |
| Matching.Matcher.constructor | matcher.go:32-55 | The plan and every compiled route are valid for the patterns. |
| Matching.Matcher.FindUnfiltered | plan.go:2677-2728 | The partitioned answer where the plan, the policy and an exceptional byte lead there, else Find. |
| Matching.Matcher.Find | plan.go:2492-2588 | Whichever route the gates admit, the answer is `Answered`, and it is Find exactly where the policy is accepted. |
| Matching.Matcher.AnsweredExactly | plan.go:2492-2588 | The answer is Find exactly when the search does not end in the partition or its first hit is not undercut. |
| Matching.Matcher.SafeAccepts | plan.go:2677-2728 | A safe set is answered right under every policy. |
| Matching.Matcher.FilteredIsRight | plan.go:2580-2585 | Where root entries or triples are kept for a generic root, every text is answered as Find. |
| Matching.Matcher.RoomyIsRight | plan.go:1898-2016 | A set with a generic root whose roots have room for their entries is answered as Find on every text. |
| Matching.Matcher.OthersAreRight | plan.go:3277-3284 | So is one pattern, a special root, an empty pattern, an opaque continuation byte, fewer than four or more than eight triples, and ASCII text without NUL. |
| Matching.Matcher.RawIsSafe | raw_byte.go:544-621 | A set that tagged anchors serve is safe. |
| Matching.Matcher.LeftExactly | plan.go:2536-2588 | The partition is reached exactly by the sets left to it that have no tagged anchors. |
| Matching.Matcher.AlwaysExactly | plan.go:2677-2728 | A matcher is right on all texts and policies exactly when its set is safe or is not left to the partition: several patterns, none empty or opaque, roots of different kinds, no filters, four to eight ASCII triples. |
| Matching.Matcher.NothingToRead | plan.go:2493-2498 | When no pattern has a unit the lowest empty one matches at once. |
| Matching.Matcher.WidthOf | matcher.go:100-108 | The width of a found match, by bytes when exact and by units when folded. |
| Matching.Matcher.Each | matcher.go:83-131 | For every caller the enumeration by a route or by repeated answers, with true widths and progress after empty matches; the sequence of Each where every search is accepted. |
| Matching.Matcher.AcceptedEach | matcher.go:83-131 | Repeated right answers are the sequence of Each. |
| Matching.Matcher.EachAlwaysExactly | matcher.go:83-131 | Enumeration is right on all texts and policies under the same condition, and no weaker one. |
| Oracle.SameKey | arena/board/oracle.go:10-21 | Two scalars fold together exactly when their keys are equal. |
| Oracle.FoldKey | arena/board/oracle.go:13-21 | The loop finds a member of the orbit, and no member is smaller. |
| Oracle.FoldWithOrigin | arena/board/oracle.go:161-177 | Any text, malformed bytes read as U+FFFD, is laid out rune by rune; the origin map gives the source offset of every folded byte. |
| Oracle.FoldString | arena/board/oracle.go:26-39 | Any string is folded unit by unit, malformed bytes kept. |
| Oracle.FoldedFormed | arena/board/oracle.go:23-39 | A string is well-formed exactly when its folded form is, so checking the key checks the pattern. |
| Oracle.FoldedMatch | arena/board/oracle.go:41-58 | A folded pattern is a substring at a boundary of the folded text exactly when the keys agree unit by unit. |
| Oracle.SourceMatch | arena/board/oracle.go:41-58 | Keys agree exactly when the pattern matches in the source, and the ends correspond. |
| Oracle.Refresh | arena/board/veloz.go:106-111 | Refreshing only the starts passed by the cursor keeps every next start exact. |
| Oracle.Matches | arena/board/oracle.go:59-110 | On well-formed text with nonempty well-formed patterns the answer key is the sequence of Each, folded or sensitive. |
| Oracle.NewVelozView | arena/board/veloz.go:32-46 | A view exists exactly for some patterns, all nonempty and well-formed; its needles are their keys. |
| Oracle.VelozFind | arena/board/veloz.go:50-69 | The earliest pending start is the first emission of Each. |
| Oracle.VelozEach | arena/board/veloz.go:74-112 | The merge of pending starts enumerates the sequence of Each; without needles, nothing. |

## Left out

- The 128-entry tables of the fixed-literal anchors, the word compare of short literals, and the sampling and rarity rules that choose an anchor byte (plan.go:572-695, 1241-1288, 2092-2145): any choice is allowed.
- The bucket table inside the filtered scan (plan.go:3175-3180): the scan uses the triples themselves. The bucket enumeration is modelled.
- Assembly kernels and unsafe loads; feature tests and length thresholds are part of the arbitrary policy.
- Density and sampling rules of the partition (plan.go:2730-2800): which texts and runs are admitted is arbitrary, except in `PartitionMiss`.
- `singlePlanCache`, `ContainsFold`, `IndexFold`, the nil matcher and nil callback: thin wrappers.
- The Unicode fold tables themselves; the fold is a parameter.
- The statistics and the second copy of the decoded scan that starts from given starts (plan.go:2898-2988).
- Rearranged triple layouts for particular kernels (plan.go:710-781): the same set in another order.
- Arena adapters over foreign engines; generators, benchmarks and input or output.
- Oracle.VelozEach: the single-needle search is taken to be the first occurrence of the folded needle, as its caller assumes; the library behind it is not part of this model. A haystack that is empty or malformed, which the code forbids, is excluded.
- Oracle.VelozFind: likewise.
- Oracle.Matches: malformed input is a missing result where the code panics.
- RawEach.MakeRawByteMultiAnchorFilter: says what a compiled filter guarantees, not for which sets one is compiled, which depends on capacities and the ranking.
- Integer overflow of token numbers and of state counts beyond 32 bits is not modelled.
