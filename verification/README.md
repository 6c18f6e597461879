# Letter Boxed solver and cth data structures

A Dafny model of the algorithms of the repository, in five parts, with the properties each of them is for.

- **The solver** (`Puzzle`, `Split`, `Index`, `Settings`, `WordGraph`, `Dfs`, `Solver`, `Boxed`, `Solve`). A box has twelve
  letters on four sides. Words become masks, equivalent words share an edge of a graph of twelve nodes, and an explicit-stack
  search under iterative deepening looks for chains that cover the box. Its cache of visited states survives from one depth to
  the next and makes the search skip solutions, so what is proved is what survives: existence, minimality, and for every chain
  a listed one that is no longer and ends with the same word. `Puzzle` states
  the rules independently of the code; `Solve.SolveBox` relates the whole pipeline, from the text of the word list to the
  traced solutions, to these rules.
- **The plain solver** (`Reference`, `Agreement`): the recursive search the benchmarks compare with, proved against the same
  rules: when the comparison in the benchmarks reports a disagreement is known exactly.
- **The matchings** (`UniqueCombine`, `Assign`): augmenting-path searches whose failure is justified by a part of the input
  with too few options, and the optimality of raising capacities level by level, for the largest group and for the spread.
- **The allocator** (`FloatBins`, `FreeLists`, `NeighborChain`, `Miniram`, `Compaction`, `AllocatorCompaction`): size classes
  with a three-bit mantissa, a two-level bitmap, intrusive lists, the chain of neighbouring blocks and the stack of unused
  ids, as one invariant that every operation keeps; `allocate` succeeds exactly up to `max_alloc`.
- **The ring allocator** (`RingAlloc`) as a state machine over the atomic steps of any number of threads, and **union-find**
  (`UnionFind`) as a refinement of the equivalence generated by the merges.

`Words`, `Arithmetic` and `Sets` hold the machine words (sequences of bits, least significant first), powers of two and
cardinalities that the parts share.

How the source is carried over:

- Objects whose methods update fields are classes (`UnionFind.UnionFind`, `Miniram.Miniram`, `Reference.LetterBoxedSolver`);
  union-find's two arrays, the graph's array of nodes and the block buffer of the scalar split are arrays changed in place.
- The depth-first search is generic over its callbacks. What the callbacks share and change (cache, solutions) is a value
  threaded through every call, so a statement about that value is a statement about the sequence of calls.
- Pointers to edges and nodes are values: the edges of a node are pairwise distinct, and a node is its index.
- "No node" and "unassigned" are -1 where the source uses the largest unsigned number.
- Where the size classes combine disjoint bit fields by a bitwise or, the model adds them.
- Conditions the source only checks in its debug macros are preconditions, and so are positive sizes for the allocators.
- The flag of a letter outside the box is a shift by more than the word width, which the language leaves undefined. The model
  passes an arbitrary word for each evaluation and shows that none reaches a word whose letters are all in the box.
- A non-empty move with equal source and destination makes `to_disjunct_copies` divide by zero; its debug check rejects only
  moves to the right. The model has no result exactly then, and shows that compaction produces no such move.
- Ring positions and sizes are 64-bit words and every sum of an attempt is taken modulo 2^64.

Where the code departs from what its comments suggest, the model follows the code: `split` with a simd library and a NUL
separator also reports the padding of the last block (`Split.PaddingFoundForNul`, `Split.WordEnds` say exactly when that
shows), and `filter_and_hash` keeps one-letter words whose letter is not in the box (`Index.KeptIsPlayable`,
`Index.ForeignLetterKept`). `alloc` of the ring allocator is documented to return nothing when space is short, but accepts
sizes near 2^64, whose sums wrap around; the bound that excludes this, the size plus twice the ring below 2^64, is shown to be
exact (`RingAlloc.AttemptExact`, `RingAlloc.SafeExactlyWhenFitting`, `RingAlloc.PromiseExact`). The two solvers are compared on
a word list with a word of two letters, which only one of them uses; `Agreement.Compare` says exactly when that matters.

## Model

| member | source | states |
|---|---|---|
| Settings.ComputeSolutionMask | lbs_solver/incl/solver/util.hpp:17-23 | the loop that builds the solution mask sets exactly the twelve box bits |
| Index.InvalidCharFlag | lbs_solver/incl/solver/util.hpp:25-31 | the flag of an invalid letter is the number whose word is the solution mask, 4095, and so is no index of the box |
| Words.DecSubtractsOne | lbs_solver/incl/solver/index.hpp:78-83 | the borrow chain used for `mask - 1` is subtraction of one, modulo the word width at zero |
| Dfs.Run | lbs_solver/incl/solver/algorithm.hpp:34-84 | the explicit-stack loop ends with the world and the answer of the recursive search: since every next-state, backtrack and stop call takes an arbitrary world value and returns the next one, the sequence of those calls and their arguments is the same; it terminates on any graph, cyclic or not, once next-state refuses all paths of some length |
| Dfs.ResumePopped | lbs_solver/incl/solver/algorithm.hpp:57-65 | popping an exhausted frame reports one backtrack with the two top states and the path of the frame, then steps the frame below past its edge |
| Dfs.ResumeRefused | lbs_solver/incl/solver/algorithm.hpp:67-80 | a refused edge changes nothing but the position in the top frame |
| Dfs.ResumeAccepted | lbs_solver/incl/solver/algorithm.hpp:73-78 | an accepted edge starts the search of its destination in the new state, before its siblings |
| Dfs.BoundIsIrrelevant | lbs_solver/incl/solver/algorithm.hpp:34-84 | the bound that shows termination does not influence the search |
| Dfs.IncompleteOnlyWhenStopped | lbs_solver/incl/solver/algorithm.hpp:56-84 | the search returns false only when its last call was to the stop condition and that held, so true means full exploration |
| Solver.DeleteBitSplices | lbs_solver/incl/solver/algorithm.hpp:90-97 | delete_bit cuts bit k out and moves the bits above it down by one |
| Solver.Key | lbs_solver/incl/solver/solver.hpp:92-94 | the cache key of a node and a mask never leaves the cache |
| Solver.KeyInjective | lbs_solver/incl/solver/solver.hpp:77-79 | for masks that contain the letter of their node the key loses no information: equal keys mean the same node and the same mask |
| Solver.NextStateCached | lbs_solver/incl/solver/solver.hpp:126-140 | the exact effect of one cached step: refused, with nothing changed, under either pruning condition; otherwise accepted, with the entry of the state set to the path size and the depth |
| Solver.ReachedIsServed | lbs_solver/incl/solver/solver.hpp:134-136 | a state reached by c edges is completed by r more, with c + r below the depth searched, only to chains for which one that is no longer and ends with the same word is listed already |
| Solver.Prunes | lbs_solver/incl/solver/solver.hpp:134-136 | both pruning conditions, a smaller ceiling or an equal one of the same depth, only refuse states all of whose completions are served: a listed chain is no longer and ends with the same word |
| Solver.AfterChild | lbs_solver/incl/solver/solver.hpp:138-140 | on the way back from a subtree, the entry it left in the cache may prune: the invariant over all cache entries is restored |
| Solver.ExploreSound | lbs_solver/incl/solver/solver.hpp:105-141 | at one depth only covering chains of exactly that length are recorded, in strictly increasing lexicographic order of edge positions, never more than the maximum |
| Solver.ExploreServes | lbs_solver/incl/solver/solver.hpp:105-141 | a depth searched to its end, with the cache left by all earlier depths in use, has listed for every covering chain of that length one that is no longer and ends with the same word |
| Solver.ExploreAll | lbs_solver/incl/solver/solver.hpp:126-127 | a depth searched to its end without the cache has listed every covering chain of that length |
| Solver.OrderIsStrict | lbs_solver/incl/solver/solver.hpp:98-145 | the order of the list is strict, so no chain is listed twice |
| Solver.NextDepth | lbs_solver/incl/solver/solver.hpp:98-145 | the ledger kept across depths: recorded chains cover the box and are ordered by length and then lexicographically; the first is a shortest one; while the list is not full, every covering chain below the depth is served, and those short enough to be searched without the cache are listed |
| Solver.EarlyTerminateInstance | lbs_solver/incl/solver/solver.hpp:63-70 | true exactly when some box letter occurs in no word |
| Solver.AnyStart | lbs_solver/incl/solver/solver.hpp:49-56 | through the router a path may start at any node, with no letter covered yet, and goes on with that node's words |
| Solver.SolveRaw | lbs_solver/incl/solver/solver.hpp:81-149 | for every graph and every depth limit below 255: whenever some chain within the limit covers the box the list is not empty and its first chain is no longer than any; all chains cover the box, are within the limits, and are ordered by length and then lexicographically; unless the list is full it has every chain of the depths searched without the cache, and for every covering chain one that is no longer and ends with the same word; it is the list of the recursive search iterated over the depths |
| Split.PositionsExact | lbs_solver/incl/solver/index.hpp:62-132 | the specification: every separator position, no other, strictly ascending |
| Split.TakeLowestMark | lbs_solver/incl/solver/index.hpp:78-83 | count-trailing-zeros gives the first mark of a mask and clearing its lowest bit leaves exactly the later ones |
| Split.ExtractSeparatorIdxs | lbs_solver/incl/solver/index.hpp:78-84 | appends the positions of all set bits of a block in ascending order |
| Split.SplitBlocks | lbs_solver/incl/solver/index.hpp:62-103 | the form with 64-bit masks returns the separator positions of the text and of its zero padding |
| Split.PaddingFoundForNul | lbs_solver/incl/solver/index.hpp:91-99 | that is the specification if and only if the separator is not NUL; the empty text is a counterexample for NUL |
| Split.SplitScalar | lbs_solver/incl/solver/index.hpp:107-132 | the branchless form returns exactly the separator positions, for every separator, writing only inside its 256 entries |
| Split.WordEnds | lbs_solver/incl/solver/index.hpp:138-147 | equals the scalar specification of the tests exactly when the build is scalar, or the separator is not NUL, or the text length is 63 modulo 64 |
| Split.JoinSlices | lbs_solver/incl/solver/index.hpp:28-35 | joining the slices the word ends delimit gives the text back, and no slice holds a separator |
| Split.SlicesOfJoin | lbs_solver/incl/solver/index.hpp:28-35 | the slices of a joined list of separator-free words are that list |
| Index.GenCompressionIndex | lbs_solver/incl/solver/index.hpp:157-167 | every lowercase letter is mapped to its last place in the box, or to the invalid flag if it has none |
| Index.PlaceIsIndex | lbs_solver/incl/solver/index.hpp:157-167 | for twelve distinct letters the index is the letter's place, and valid exactly for box letters |
| Index.SideMasks | lbs_solver/incl/solver/index.hpp:186-195 | mask i has exactly the bits of side i |
| Index.GenCharFilterMasks | lbs_solver/incl/solver/index.hpp:182-215 | a box letter gets the bits of its side, any other letter all box bits |
| Index.OverlapIsExact | lbs_solver/incl/solver/index.hpp:243-247 | two letters' masks are disjoint if and only if both are box letters and they are on different sides |
| Index.HashBits | lbs_solver/incl/solver/index.hpp:239-245 | bit b is in a word's mask exactly when the letter with index b is in the word |
| Index.HashWord | lbs_solver/incl/solver/index.hpp:239-250 | the loop over a word runs to its end exactly when no neighbouring letters overlap, and the mask is then that of its letters |
| Index.FilterAndHash | lbs_solver/incl/solver/index.hpp:218-259 | keeps exactly the non-empty delimited words that pass, in order, each with the mask of its letters; whatever the flag of an invalid letter evaluates to, it reaches no word whose letters are all in the box |
| Index.KeptExact | lbs_solver/incl/solver/index.hpp:236-254 | a word is kept exactly when it is delimited, not empty and passes |
| Index.KeptIsPlayable | lbs_solver/incl/solver/index.hpp:242-253 | a kept word is one the rules allow if and only if it is not a single letter from outside the box; kept words of two or more letters only have box letters |
| Index.ForeignLetterKept | lbs_solver/incl/solver/index.hpp:239-253 | the exception occurs: the one-letter word z is kept for a box without z |
| WordGraph.FindEdge | lbs_solver/incl/solver/solver.hpp:211-214 | the first edge with the given mask and destination, no earlier one matching, or the end if there is none |
| WordGraph.NodeStep | lbs_solver/incl/solver/solver.hpp:209-219 | filing word n at its node keeps: edges hold exactly the words of their key in order, keys do not repeat, edges are in the order of their first words, every word is filed |
| WordGraph.InitNodes | lbs_solver/incl/solver/solver.hpp:185-190 | twelve nodes with their index and no edges |
| WordGraph.BuildGraph | lbs_solver/incl/solver/solver.hpp:196-221 | every edge holds exactly the words with its first letter, last letter and mask, ascending; no two edges of a node are equivalent; they are in the order of their first words; every word is in one |
| Boxed.EveryWordOnce | lbs_solver/incl/solver/solver.hpp:192-221 | every word index is in exactly one edge of the whole graph, at the node of its first letter, with its last letter and its mask |
| Boxed.GraphIsWellFormed | lbs_solver/incl/solver/solver.hpp:196-221 | the graph meets what the cache key relies on: every edge's mask has the letter of its destination, and a node's edges are distinct |
| Boxed.BitsAreLetters | lbs_solver/incl/solver/solver.hpp:114-116 | the mask of a path has bit b exactly when letter b of the box occurs in its words |
| Boxed.RealizedSolves | lbs_solver/incl/solver/solver.hpp:118-121 | words that realize a covering path solve the box by the rules |
| Boxed.SolutionHasWalk | lbs_solver/incl/solver/solver.hpp:196-221 | every list of words that solves the box by the rules has a covering path one edge longer |
| Solve.TraceSolutions | lbs_solver/incl/solver/solver.hpp:159-180 | solution k, place j, variant i is the word with the index that edge j + 1 of raw solution k holds at i |
| Solve.PicksRealize | lbs_solver/incl/solver/solver.hpp:170-177 | any choice of variants from a traced path realizes the path |
| Solve.TracedInjective | lbs_solver/incl/solver/solver.hpp:159-180 | different paths are traced to different solutions |
| Solve.SameKeyIsInterchangeable | lbs_solver/incl/solver/solver.hpp:211-214 | words share an edge exactly when they have the same first letter, last letter and letters |
| Solve.VariantsAreSubstitutes | lbs_solver/incl/solver/solver.hpp:170-177 | a place of a traced path that lists a word lists exactly the playable words that can take its place, in the order of the list |
| Solve.TracedLastWords | lbs_solver/incl/solver/solver.hpp:98-148 | for any words of the list that solve the box there is a solution that is no longer and may end with the same word, unless the list is full |
| Solve.KeptSubstitutes | lbs_solver/incl/solver/index.hpp:236-254 | filtering the list drops no word that can take the place of another |
| Solve.Solve | lbs_solver/incl/solver/solver.hpp:229-246 | for every box the index was made for: at most twenty distinct solutions of one to three places, ordered by length; any choice of variants solves the box; a place lists exactly the interchangeable words, in order; if any words of the list solve the box with at most three words there is a solution, the first as short as any, and unless there are twenty, one that is no longer and may end with the same word, so every single word that covers the box is listed; they are the traced solutions of the search, one by one |
| Solve.KeptArePlayable | lbs_solver/incl/solver/index.hpp:236-254 | of a list whose one-letter words are box letters, the kept words are exactly those the rules allow |
| Solve.SolveBox | lbs_solver/runner/src/main.cpp:18-39 | end to end from twelve distinct letters and a comma separated text, on either build, all of this with respect to the words of the text and the rules |
| Reference.LetterBoxedSolver.ReadBox | lbs_solver/runner/bench/gpt_runner.hpp:139-160 | letters are folded and read in order, letter n is on side n / 3, later occurrences win, and the target mask has exactly the letters read |
| Reference.LetterBoxedSolver.ValidateAndProcessWord | lbs_solver/runner/bench/gpt_runner.hpp:54-75 | true exactly for words of three or more box letters without neighbours on one side; the mask then has exactly the letters of the word |
| Reference.LetterBoxedSolver.FileToken | lbs_solver/runner/bench/gpt_runner.hpp:97-110 | a token is filed under its first letter if valid and dropped otherwise |
| Reference.LetterBoxedSolver.LoadAndFilterDictionary | lbs_solver/runner/bench/gpt_runner.hpp:77-112 | files exactly the valid tokens of the text, by first letter and in order |
| Reference.LetterBoxedSolver.Dfs | lbs_solver/runner/bench/gpt_runner.hpp:115-134 | finds a continuation within the depth exactly when there is one; the path and the output then hold it, and are unchanged otherwise |
| Reference.LetterBoxedSolver.Search | lbs_solver/runner/bench/gpt_runner.hpp:165-180 | the first chain found is a shortest one; empty only if no chain of up to three words exists |
| Reference.LetterBoxedSolver.Run | lbs_solver/runner/bench/gpt_runner.hpp:137-181 | the same from a box and a text, whatever the solver held before |
| Reference.Starting | lbs_solver/runner/bench/gpt_runner.hpp:97-110 | a letter's file has exactly the valid words that start with it |
| Agreement.ValidIsPlayable | lbs_solver/runner/bench/gpt_runner.hpp:54-75 | for lowercase words and twelve distinct letters the plain check is the rules plus a minimum of three letters |
| Agreement.TokensAreSlices | lbs_solver/runner/bench/gpt_runner.hpp:84-95 | on letters and commas, the plain tokenizer yields the non-empty words the other solver delimits |
| Agreement.TargetIsCover | lbs_solver/runner/bench/gpt_runner.hpp:117-122 | the plain solver's mask reaches its target exactly when the words cover the box |
| Agreement.ChainSolves | lbs_solver/runner/bench/gpt_runner.hpp:115-134 | every chain of the plain solver solves the box by the rules, with words of three or more letters |
| Agreement.SolvesChain | lbs_solver/runner/bench/gpt_runner.hpp:115-134 | every solution with words of three or more letters is a chain of the plain solver |
| Agreement.Compare | lbs_solver/runner/bench/main.cpp:145-150 | for every box of twelve distinct letters and every list of lowercase words: one solver finds a solution exactly when one of up to three words exists, the plain one exactly when one of up to three words of three or more letters exists, so they disagree exactly on boxes that need a shorter word; on lists without such words they never disagree, and their first solutions are equally long |
| Agreement.ShortWordDisagreement | lbs_solver/runner/bench/main.cpp:145-150 | they do disagree on the box abcdefghijkl with the words adgjbehkcfi and il |
| UniqueCombine.ViolatorExcludes | lib/cth/incl/cth/algorithm/combine.hpp:19-22 | ranges that together offer fewer values than there are ranges rule out any choice of distinct representatives |
| UniqueCombine.FindAugmentingPath | lib/cth/incl/cth/algorithm/combine.hpp:44-65 | returns the end of a chain of discoveries from an unclaimed value, or else exhibits ranges offering too few values |
| UniqueCombine.Flip | lib/cth/incl/cth/algorithm/combine.hpp:74-83 | the flip loop follows the discovery order backward to the start, so it ends; afterwards one more range has a representative and the others keep one |
| UniqueCombine.UniqueCombine | lib/cth/incl/cth/algorithm/combine.hpp:25-95 | returns pairwise distinct values, the i-th from the i-th range; returns empty for a non-empty input only if some set of ranges offers too few values, hence only if no choice exists |
| Assign.OverfullExcludes | lib/cth/incl/cth/algorithm/combine.hpp:154-186 | a part of the a's whose options together have too few places rules out any assignment at those capacities |
| Assign.FindAugmentingPath | lib/cth/incl/cth/algorithm/combine.hpp:154-186 | returns a b with room at the end of a chain of discoveries, or shows that no assignment at the present capacities exists |
| Assign.QueueResidents | lib/cth/incl/cth/algorithm/combine.hpp:176-182 | marks and queues each resident of a full b at most once, with the b as its origin |
| Assign.SwapPopRemoves | lib/cth/incl/cth/algorithm/combine.hpp:217-220 | swap-and-pop removes exactly the element found |
| Assign.Flip | lib/cth/incl/cth/algorithm/combine.hpp:209-231 | moves every displaced a along the chain of discoveries and places the start; both directions of the assignment stay consistent and within the capacities, the group at the end of the chain grows by one and no other changes size, and every trap stays as it is |
| Assign.MoveKeepsTrap | lib/cth/incl/cth/algorithm/combine.hpp:209-231 | a set of a's whose options are full with members of the set is left alone by every move into a b with room |
| Assign.TrappedPlacesMost | lib/cth/incl/cth/algorithm/combine.hpp:202-234 | when everyone not placed is in such a set, no partial assignment at these capacities places more |
| Assign.Raise | lib/cth/incl/cth/algorithm/combine.hpp:195-200 | raises the capacities from one water level to the next, and reports whether that changed anything |
| Assign.PlaceAll | lib/cth/incl/cth/algorithm/combine.hpp:202-234 | places as many as any partial assignment at this level, and no group shrinks; if an a is left, no assignment at this level exists |
| Assign.AboveLevel | lib/cth/incl/cth/algorithm/combine.hpp:188-235 | if a level leaves someone out, every valid assignment has a larger group |
| Assign.OptimalLevel | lib/cth/incl/cth/algorithm/combine.hpp:188-239 | an assignment at a level whose predecessor failed has the smallest possible largest group |
| Assign.TruncateIsPartial | lib/cth/incl/cth/algorithm/combine.hpp:188-235 | a valid assignment with each group cut at a level is a partial one at that level's capacities |
| Assign.BestSpreads | lib/cth/incl/cth/algorithm/combine.hpp:188-235 | an assignment reached through largest placements at every level fills its groups up to each level at least as much as any valid assignment |
| Assign.Assign | lib/cth/incl/cth/algorithm/combine.hpp:102-240 | a valid assignment whose largest group is as small as in any valid assignment, and for which at every level the sum of the group sizes cut at that level is at least that of any valid assignment; empty for a non-empty input only if no valid assignment exists |
| RingAlloc.FittingAttempt | lib/cth/incl/cth/data/ringalloc.hpp:59-73 | the wrap test, total and capacity test on 64-bit words are those of unbounded numbers when the size plus twice the ring is below 2^64 |
| RingAlloc.AttemptExact | lib/cth/incl/cth/data/ringalloc.hpp:59-73 | for rings below a third of the word range this bound is exact: every attempt, at any head within a lap of the tail, agrees with unbounded arithmetic if and only if the size fits |
| RingAlloc.HugeSizesAccepted | lib/cth/incl/cth/data/ringalloc.hpp:59-83 | a fresh ring of 100 bytes accepts a request of 2^64 - 1 bytes; with head 10 a request of 2^64 - 5 bytes moves the head back to 5 |
| RingAlloc.CommitEffect | lib/cth/incl/cth/data/ringalloc.hpp:76-86 | a commit of a size that fits moves the head forward by exactly the bytes needed, to within a lap of the tail |
| RingAlloc.CommitPlaced | lib/cth/incl/cth/data/ringalloc.hpp:59-86 | a committed range lies in the buffer in one piece, after the wrap padding if any |
| RingAlloc.StepKeepsLog | lib/cth/incl/cth/data/ringalloc.hpp:49-106 | while sizes fit and positions stay a lap below 2^64, no step of any thread moves head or tail back or forgets an allocation |
| RingAlloc.CommitKeeps | lib/cth/incl/cth/data/ringalloc.hpp:77-86 | under the same conditions a commit by compare-and-swap keeps the invariant although the tail it tested may be stale |
| RingAlloc.OthersKeep | lib/cth/incl/cth/data/ringalloc.hpp:50-106 | so does every other step: loads, refusals, retries and frees |
| RingAlloc.RunKeepsInv | lib/cth/incl/cth/data/ringalloc.hpp:49-106 | the invariant holds in every state of every such run of any number of threads |
| RingAlloc.OutstandingDisjoint | lib/cth/incl/cth/data/ringalloc.hpp:49-106 | no byte belongs to two allocations that have not been freed, and all lie in the buffer |
| RingAlloc.RunSafe | lib/cth/incl/cth/data/ringalloc.hpp:49-106 | in every run whose sizes fit and whose positions stay a lap below 2^64, the tail never decreases, tail <= head <= tail + size, every range returned lies in the buffer, and unfreed allocations share no byte |
| RingAlloc.SafeExactlyWhenFitting | lib/cth/incl/cth/data/ringalloc.hpp:49-106 | for rings below a third of the word range: the runs that ask for a given size, besides sizes up to the ring's, are all safe if and only if that size fits |
| RingAlloc.UnsafeRun | lib/cth/incl/cth/data/ringalloc.hpp:49-86 | for every size that does not fit, a run that gets a range larger than the buffer |
| RingAlloc.LapDistance | lib/cth/incl/cth/data/ringalloc.hpp:136-145 | the offsets of head and tail determine how far they are apart |
| RingAlloc.AllocExact | lib/cth/incl/cth/data/ringalloc.hpp:129-148 | with the current head and tail loaded, an allocation of a size that fits commits exactly for the sizes up to max_alloc and is refused for all larger ones, in all wrapped, unwrapped, empty and full cases |
| RingAlloc.PromiseExact | lib/cth/incl/cth/data/ringalloc.hpp:129-148 | for rings below a third of the word range, a size is decided that way in every state if and only if it fits |
| RingAlloc.UndisturbedAlloc | lib/cth/incl/cth/data/ringalloc.hpp:49-87 | an undisturbed call for a size that fits comes to that decision from an idle thread |
| RingAlloc.UndisturbedRetry | lib/cth/incl/cth/data/ringalloc.hpp:77-82 | so does a retry after a failed compare-and-swap, which reloads the head and then the tail |
| RingAlloc.FreeEnds | lib/cth/incl/cth/data/ringalloc.hpp:94-106 | a free that ends, by its compare-and-swap or because others have freed as far, has moved the tail exactly up to its token, or left it beyond; head and log are untouched |
| RingAlloc.FreedIsCumulative | lib/cth/incl/cth/data/ringalloc.hpp:89-106 | an allocation so freed and those before it are no longer outstanding, and exactly those after it that were outstanding still are |
| RingAlloc.RunFrees | lib/cth/incl/cth/data/ringalloc.hpp:94-106 | in every usable run, whenever a thread comes back from freeing an allocation, this holds |
| RingAlloc.UndisturbedFree | lib/cth/incl/cth/data/ringalloc.hpp:94-106 | an undisturbed free ends in one more step, also after a failed compare-and-swap |
| RingAlloc.FreeingNewest | lib/cth/incl/cth/data/ringalloc.hpp:94-106 | after freeing the newest allocation nothing is outstanding, tail and head are equal, and max_alloc is all the room there can be at that position |
| UnionFind.RedirectRepresents | lib/cth/incl/cth/data/union_find.hpp:83-95 | redirecting one class to another represents the equivalence generated with one more pair |
| UnionFind.HalvingKeepsForest | lib/cth/incl/cth/data/union_find.hpp:68-73 | linking an index to its grandparent keeps the forest acyclic, its roots and its classes |
| UnionFind.LinkKeepsForest | lib/cth/incl/cth/data/union_find.hpp:93 | hanging one root below another keeps the forest acyclic and joins exactly the two classes |
| UnionFind.LinkKeepsSizes | lib/cth/incl/cth/data/union_find.hpp:94 | the size entries of roots stay the sizes of their classes |
| UnionFind.UnionFind.constructor | lib/cth/incl/cth/data/union_find.hpp:29-34 | n singletons |
| UnionFind.HalveNext | lib/cth/incl/cth/data/union_find.hpp:68-73 | each round links one more index of the path to its grandparent and leaves everything further up as it was |
| UnionFind.UnionFind.Find | lib/cth/incl/cth/data/union_find.hpp:65-76 | returns the root of the class, terminates, changes neither roots nor classes, and halves the path: k links up from the index now lead where 2k links led before |
| UnionFind.UnionFind.MergePair | lib/cth/incl/cth/data/union_find.hpp:83-95 | joins the two classes under the larger root; the relation grows by the pair |
| UnionFind.UnionFind.MergeGroup | lib/cth/incl/cth/data/union_find.hpp:102-117 | joins the classes of all members under the root of the first; the relation grows by the group; nothing happens for an empty group |
| UnionFind.UnionFind.SameClass | lib/cth/incl/cth/data/union_find.hpp:65-76 | after any merges and finds, two roots are equal exactly when the equivalence closure of the merged pairs and groups relates the indices |
| UnionFind.UnionFind.Roots | lib/cth/incl/cth/data/union_find.hpp:133-140 | exactly the roots, ascending |
| UnionFind.UnionFind.AllOf | lib/cth/incl/cth/data/union_find.hpp:148-160 | exactly the members of the class, ascending |
| UnionFind.UnionFind.All | lib/cth/incl/cth/data/union_find.hpp:162-177 | one ascending list per class, every index in one, in the order of their first members |
| FloatBins.HighestBit | lib/cth/incl/cth/data/inl/miniram.inl:12-15 | the exponent of the largest power of two not above the number |
| FloatBins.HighestBitOfWord | lib/cth/incl/cth/data/inl/miniram.inl:12-15 | on a mask this is its highest set bit |
| FloatBins.ShiftSplits | lib/cth/incl/cth/data/inl/miniram.inl:25-33 | the shifted-out low bits and the shifted number make up the number |
| FloatBins.FloorBrackets | lib/cth/incl/cth/data/inl/miniram.inl:39-59 | a size lies between the value of its rounded-down bin and that of the next bin |
| FloatBins.FloorIsGreatest | lib/cth/incl/cth/data/inl/miniram.inl:39-59 | rounding down gives the greatest bin whose value does not exceed the size |
| FloatBins.CeilBrackets | lib/cth/incl/cth/data/inl/miniram.inl:17-37 | the rounded-up bin covers the size and the bin before does not, also when the mantissa carries into the exponent |
| FloatBins.CeilIsLeast | lib/cth/incl/cth/data/inl/miniram.inl:17-37 | rounding up gives the least bin whose value covers the size |
| FloatBins.BinValue | lib/cth/incl/cth/data/inl/miniram.inl:51-59 | a mantissa of 16 carried into the exponent has the value of the next exponent's first bin |
| FloatBins.BinsMonotone | lib/cth/incl/cth/data/inl/miniram.inl:51-59 | bin values strictly increase |
| FloatBins.BinsAreExact | lib/cth/incl/cth/data/inl/miniram.inl:17-59 | both conversions invert to_uint on every bin |
| FloatBins.ConversionsMonotone | lib/cth/incl/cth/data/inl/miniram.inl:17-49 | both conversions are monotone |
| FloatBins.FloorLoss | lib/cth/incl/cth/data/inl/miniram.inl:39-59 | rounding down loses less than an eighth of the size |
| FloatBins.BinsInRange | lib/cth/incl/cth/data/inl/miniram.inl:17-49 | sizes of w bits only use the bins the allocator has |
| FreeLists.InsertBins | lib/cth/incl/cth/data/inl/miniram.inl:94-106 | a node put in front of its bin keeps every list correctly linked, and the lists hold exactly the free blocks |
| FreeLists.UnlinkBins | lib/cth/incl/cth/data/inl/miniram.inl:116-130 | taking a node out of the front or the middle of its list keeps every list correctly linked |
| FreeLists.UnlinkListed | lib/cth/incl/cth/data/inl/miniram.inl:116-130 | the lists then hold exactly the other free blocks |
| FreeLists.BitmapFill | lib/cth/incl/cth/data/inl/miniram.inl:94-97 | setting both bits keeps both levels exact |
| FreeLists.BitmapClear | lib/cth/incl/cth/data/inl/miniram.inl:132-137 | clearing the leaf bit, and the top bit once the leaf word is zero, keeps both levels exact |
| FreeLists.PopId | lib/cth/incl/cth/data/inl/miniram.inl:446-450 | popping an id keeps every unused id on the stack exactly once |
| FreeLists.PushId | lib/cth/incl/cth/data/inl/miniram.inl:454-458 | so does pushing one back |
| FreeLists.GrowIds | lib/cth/incl/cth/data/inl/miniram.inl:283-293 | so does growing the stack by the new ids |
| NeighborChain.CutChain | lib/cth/incl/cth/data/inl/miniram.inl:325-337 | cutting a block in two keeps the chain a tiling of the capacity in address order |
| NeighborChain.MergeChain | lib/cth/incl/cth/data/inl/miniram.inl:402-410 | replacing a stretch of blocks by one keeps the chain a tiling |
| NeighborChain.CutSeparated | lib/cth/incl/cth/data/inl/miniram.inl:310-337 | cutting leaves no two free neighbours |
| NeighborChain.MergeSeparated | lib/cth/incl/cth/data/inl/miniram.inl:372-411 | merging with both free neighbours leaves no two free neighbours |
| NeighborChain.BlocksDisjoint | lib/cth/incl/cth/data/inl/miniram.inl:297-338 | blocks of the chain do not overlap and lie in the capacity |
| Miniram.FindLowestBitAfter | lib/cth/incl/cth/data/inl/miniram.inl:342-354 | the lowest set bit from the start on, or none |
| Miniram.LowestBinSpec | lib/cth/incl/cth/data/inl/miniram.inl:209-229 | the two-level search finds the lowest non-empty bin from the given one on, or shows there is none |
| Miniram.HandOutWhole | lib/cth/incl/cth/data/inl/miniram.inl:303-323 | handing out a whole block adds exactly its range to the allocations in force |
| Miniram.HandOutPart | lib/cth/incl/cth/data/inl/miniram.inl:303-337 | handing out part of a block adds exactly that part and leaves the rest free and linked |
| Miniram.TakeBack | lib/cth/incl/cth/data/inl/miniram.inl:372-411 | freeing with merging removes exactly the one allocation |
| Miniram.Miniram.constructor | lib/cth/incl/cth/data/inl/miniram.inl:62-79 | the whole invariant, with one free block of the whole capacity |
| Miniram.Miniram.NewNode | lib/cth/incl/cth/data/inl/miniram.inl:145-148 | takes the id on top of the stack and books the size |
| Miniram.Miniram.InsertNode | lib/cth/incl/cth/data/inl/miniram.inl:83-109 | files a new free block under the id on top of the stack at the front of its bin, all books kept |
| Miniram.Miniram.RemoveNode | lib/cth/incl/cth/data/inl/miniram.inl:113-141 | takes a free block out of its list and returns its id, all books kept |
| Miniram.Miniram.FreeNode | lib/cth/incl/cth/data/inl/miniram.inl:152-158 | returns an id and its size, the books kept |
| Miniram.Miniram.PushFreeNode | lib/cth/incl/cth/data/inl/miniram.inl:454-458 | puts an id on top of the stack |
| Miniram.Miniram.SliceTopBinNode | lib/cth/incl/cth/data/inl/miniram.inl:297-338 | hands out the first block of a bin, cut to size, the whole invariant kept |
| Miniram.Miniram.ReserveNodes | lib/cth/incl/cth/data/inl/miniram.inl:283-293 | grows the nodes by blanks and keeps the books |
| Miniram.Miniram.ReserveAllocations | lib/cth/incl/cth/data/miniram.hpp:150 | one node more than the allocations asked for, unless there are as many; allocations in force and free blocks are unchanged |
| Miniram.Miniram.HeadIsGoodFit | lib/cth/incl/cth/data/inl/miniram.inl:209-231 | the front of the lowest non-empty bin from the rounded-up size on is a free block that suits, and none that suits has a smaller rounded-down size |
| Miniram.Miniram.Allocate | lib/cth/incl/cth/data/inl/miniram.inl:202-236 | succeeds exactly for allocatable sizes, those up to max_alloc; takes the start of the free block filed last in the lowest bin that suits; adds one new allocation of exactly that size there and changes no other; grows the nodes exactly when no id is left; keeps the whole invariant |
| Miniram.Miniram.MaxAllocExact | lib/cth/incl/cth/data/inl/miniram.inl:424-433 | max_alloc is the largest size that some bin from its rounded-up bin on serves, for every state |
| Miniram.Miniram.LiveDisjoint | lib/cth/incl/cth/data/inl/miniram.inl:202-236 | allocations in force lie in [0, capacity), are pairwise disjoint, and have the size size_of reports |
| Miniram.Miniram.Conservation | lib/cth/incl/cth/data/miniram.hpp:219-226 | remaining and the sizes in force add up to the capacity |
| Miniram.Miniram.AllFreedIsWhole | lib/cth/incl/cth/data/inl/miniram.inl:358-411 | once nothing is in force, whatever the order of frees, there is a single free block of the whole capacity |
| Miniram.Miniram.MergeNeighbors | lib/cth/incl/cth/data/inl/miniram.inl:367-393 | absorbs a free block on either side: the merged range and its outer neighbours |
| Miniram.Miniram.Free | lib/cth/incl/cth/data/inl/miniram.inl:358-411 | removes exactly the allocation; a free block of its id, at the front of its bin, covers its range; keeps the whole invariant, no two free neighbours included |
| Compaction.ChunksDisjoint | lib/cth/incl/cth/data/inl/miniram.inl:262-276 | the chunks of a left-shifting move do not overlap their destinations |
| Compaction.ChunksExec | lib/cth/incl/cth/data/inl/miniram.inl:262-276 | copied in order, the chunks leave the memory the move leaves |
| Compaction.SplitExec | lib/cth/incl/cth/data/inl/miniram.inl:240-279 | the split list leaves the same memory as the moves made in order |
| Compaction.ChunkCount | lib/cth/incl/cth/data/inl/miniram.inl:262-263 | the chunk count by rounded-up division is the number of copies a move is split into |
| Compaction.ToDisjunctCopies | lib/cth/incl/cth/data/inl/miniram.inl:240-279 | for moves that do not go right: produces that list, in which no copy overlaps its destination, unless some move is non-empty and in place, exactly when the chunk count divides by zero |
| Compaction.AddMoveExec | lib/cth/incl/cth/data/inl/miniram.inl:479-487 | a block merged into the last move is moved as if by itself |
| Compaction.MovesCompact | lib/cth/incl/cth/data/inl/miniram.inl:473-497 | after the moves of k blocks these are in their new places, and nothing behind them has changed |
| Compaction.MovesMerged | lib/cth/incl/cth/data/inl/miniram.inl:479-487 | no two consecutive moves touch: what can be moved together is |
| Compaction.CompactUsedNodes | lib/cth/incl/cth/data/inl/miniram.inl:462-506 | the moves, the reported offsets, the new links and the compacted end, for used blocks given in address order |
| Compaction.CompactionKeepsContents | lib/cth/incl/cth/data/inl/miniram.inl:462-506 | every move goes strictly left, no two consecutive ones touch, and the moves, merged and split or not, put every block's old bytes at its new offset |
| AllocatorCompaction.AllocatorCompacts | lib/cth/incl/cth/data/inl/miniram.inl:177-187 | the used blocks of any neighbour chain are such an input, so no state of the allocator loses bytes in compaction |
| AllocatorCompaction.CollectNodes | lib/cth/incl/cth/data/inl/miniram.inl:168-174 | the first loop of defragment: the used nodes by id, and the unused ids written from the bottom of the stack |
| AllocatorCompaction.RefillExact | lib/cth/incl/cth/data/inl/miniram.inl:168-174 | this refill leaves every unused id above the pointer exactly once if and only if as many nodes are used as not and the upper half of the old stack already was the unused ids |
| AllocatorCompaction.RefillOfUnusedFails | lib/cth/incl/cth/data/inl/miniram.inl:168-174 | with nothing in use, as right after construction, it leaves no id to pop |

## Left out

- Miniram.Miniram.Allocate: the number of nodes is unbounded; that an index type too narrow for the number of nodes would run out of ids is not modelled.
- RingAlloc.RunSafe: runs in which positions reach 2^64 less one lap, that is after 2^64 bytes including padding; weaker memory orders and progress of the compare-and-swap loops are not modelled either.
- RingAlloc.SafeExactlyWhenFitting: for rings of a third of 2^64 bytes or more only one direction is shown, that sizes that fit are safe.
- Solve.SolveBox: one-letter words must be letters of the box, because the pair test does not examine them and the graph then indexes outside its nodes; input is lowercase, because the letter index is unchecked.
- Solve.Solve: the list of solutions is not complete, by design of the cache: of chains that pass through the same letter with the same letters covered, the search may list one only.
- Agreement.Compare: lists with characters other than lowercase letters and commas, which the two solvers split differently.
- Reference.LetterBoxedSolver.ReadBox: the signed eight-bit width of a side number, which matters for boxes of more than 384 letters.
- Assign.Assign: indices narrower than the number of a's or b's, where -1 cast to the narrow type could be a valid index.
- UnionFind.UnionFind.MergePair: the width of size entries.
- Solver.SolveRaw: search limits of 255 words and more, at which the eight-bit depths in the cache would wrap around; the program's limit is three.
- `defragment` as a transition, `resize`, `reconstructFreeSpace` and re-running `clear` on a used allocator. `defragment` refills the free ids from index 0 while ids are popped from the pointer upward, and `AllocatorCompaction.RefillExact` says when that leaves the stack in order; `clear` resets the stack pointer without touching the stack. The move list and the refill are modelled.
- `fragmentation` and the free-region report: derived numbers that would add easy members.
- Zero-size allocations and zero capacity.
- The allocator's vectors and fixed arrays and the plain solver's tables are sequence-valued fields, so aliasing between them is not expressible.
- `union_find` equality and the memory layout of its storage.
- `mask_of`, reserve calls and size guesses, which have no effect on results.
- File loading, embedding of the word list, benchmark reporting, console, logging and formatting.
- Coroutines, operating system and network wrappers, and the type-level and string utilities.
