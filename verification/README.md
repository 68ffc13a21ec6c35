# go-ftrace: models and proofs

go-ftrace traces Go functions with uprobes. Kernel programs follow sampled goroutines and copy
argument bytes at the moment of the call; user space decodes those bytes against DWARF types and
rebuilds call stacks under a memory budget. This project models both halves in Dafny and proves
that they agree with each other and with the traced process.

Five parts, hardest first. Every file is one module or two and the file names below are theirs.

**Auto-fetch.** `GoTypes`, `FetchPlan` (the planner that compiles a type tree into at most eight
fetch rules), `KernelFetch` (rule encoding and the probe's addressing loops), `Snapshot`, `Scatter`,
`Render` and `Decode` (the decoder, as functions and as the loops that compute them), `LiveView`
(the reference: what a value means, read straight from live memory), `AutoFetch`, `Faithfulness`,
`Theorem` (one variable), `Recipes` and `RecipeTheorem` (the extra copies for interface types),
`WholeList` (compile, load, run, decode a whole list with whatever recipes are known: nothing false
is ever shown), `Glimpse`, `Shown`, `RecipeTexts` and `ExactList` (and exactly what is shown: the
fetched words and the copies of 64 bytes tell a value, and that is rendered, no less), and the limits
of faithfulness: `Skipped` (variables the planner skips), `OwnLeaves`
and `WrongLeaf` (whose recipe leaf is whose), `Exactness` (how much is shown; unreadable itabs;
one-pointer structs), `Witnesses` (one small input for each of three failures).

**The sampled-trace protocol.** `TraceEvents`, `TraceKernel` (the probes), `ManagerState` (each
operation of the event manager on the whole state, as functions), `EventManager` (the same as
methods of one object with one object a process, proved equal to those functions), `Accounting`
(the memory budget), `ProcessTable` (the LRU), `Goroutines` (one goroutine at a time; interleaving),
`Samples` (aggregated samples are complete call trees), `Agreement` (kernel and reader decide alike),
`CallTrees` (both together: what a sample is recorded as, against the calls really made), `Admission`
(which calls are followed, how long, and what is reported without adaptive mode), `Suppression` (what
is dropped and ignored, each counted once).

**Aggregation** (`Aggregation`: weighted Space-Saving and the latency histograms; `Summaries`: the
table of functions of a process), **the adaptive sampler** (`Sampler`), and three small inverses:
**the fetch-rule parser** (`FetchExpr`), **the DIE child walker** (`DieWalker`) and
**poll-and-drain** (`Drain`).

Target memory is a partial map from address to byte with 64-bit wrap-around; pointers name types in
an environment, since Go types can be cyclic; rendered values are a datatype with an unavailable
node. Calls into ELF and DWARF are opaque parameters: the runtime type lookup and the probe table
are partial functions. Random draws, clock readings, the result of a float conversion that Go leaves
open and the order in which a Go map is walked are inputs or open choices, so every claim holds for
all of them.

Where the code and its documentation differ, the code is followed: `docs/AdaptiveSampling.md:25`
draws samples only under adaptive sampling, while `internal/bpf/ftrace.c:629-638` always draws, at a
rate that stays 1 unless the sampler changes it.

Findings, each with its exact condition:

- A skipped variable that occupies registers shifts every later one: a planned variable is shown
  truly in every run if and only if no variable skipped before it occupies a register
  (`Skipped.ShownTrulyIff`). Skips of values on the stack or of size zero are harmless.
- An interface is always given its own recipe leaves if and only if every variable planned before it
  is orderly: itself a top-level interface, or one the probe marks nothing of and the decoder looks
  for no recipe of, unless the plan fills the event (`OwnLeaves.OwnLeavesIff`). Out of order are
  structs in registers with an interface in them (marked and owed a leaf, never taken), and pointers
  to structs with an interface without methods in the copied 64 bytes (not marked, but taken) or one
  with methods anywhere (marked, but taken only from a copy that succeeded and reaches it). For
  `func(s struct{f any}, q any)` with two strings, `q` is shown with the text of `s.f`
  (`WrongLeaf.WrongLeafShown`, one input in `Witnesses.WrongLeafExample`).
- A one-pointer struct in a top-level interface is read one level too deep, at every event, since its
  recipe is always empty (`Exactness.DirectStructFaithfulIff`, `Witnesses.PointerStructExample`).
- A top-level interface whose itab cannot be read is shown as nil (`Exactness.InterfaceFaithfulIff`,
  `Witnesses.ItabExample`).
- A type-word leaf is bound as 64 bytes although 8 were copied (`Exactness.TypeLeafSoundIff`).
- The sampler's recovery needs one window more than 15 per halving of the floor and 5 per halving of
  the denominator in exactly one family of states (`Sampler.BoundIsTight`).
- `x=():u8` is accepted with an empty rule list (`FetchExpr.NoRulesIff`), on which installing the
  rules panics (`KernelFetch.SetArgRules`).

## Model

| member | source | states |
|---|---|---|
| WholeList.AutoFetchFaithful | internal/uprobe/value.go:74-176 | for any variable list with skipped variables anywhere, any registers, memory and recipes known to both sides: compile, load the rules, run the probe, decode; of every planned variable that lies in the registers the planner reads and for which no rules are known, or whose recipe leaves nobody else takes, nothing false is shown, only unavailable subtrees and omitted slice payloads are allowed |
| WholeList.OrderlyListFaithful | internal/uprobe/value.go:74-86 | with any recipes, of a list whose planned variables are scalars, strings, slices, structs without interfaces, pointers to such, or top-level interfaces, everything shown is true |
| WholeList.OrderlyIsUndisturbed | internal/uprobe/value.go:74-86 | nobody else takes its leaves, whatever recipes are known, when it and all planned before it are scalars, strings, slices, structs without interfaces, pointers to such, or top-level interfaces |
| WholeList.RecipeLeavesLineUp | internal/uprobe/value.go:74-86 | after such variables the decoder's two cursors stand at an interface's own leaves, and these are the ones the probe appended for it |
| AutoFetchTheorem.ValueFaithful | internal/uprobe/auto.go:226-336 | one variable of any kind, with any recipe tables as long as they hold no rules for it (an empty recipe is none): nothing false is shown and no recipe leaf is taken |
| ExactList.AutoFetchExact | internal/uprobe/value.go:74-176 | under the same conditions, with learned recipes, exactly what the fetched words and the copied 64 bytes tell is shown of it: every text, field, pointer and interface value that a copy has, and nothing else |
| Glimpses.RenderIsGlimpse | internal/uprobe/value.go:505-661 | for any type and value, rendering over true 64-byte copies shows exactly the live view as far as those copies and the bytes in hand reach |
| Glimpses.GlimpseIsViewIff | internal/uprobe/value.go:505-661 | that is the live view itself if and only if every text, pointer target and field that a live reading shows is in hand or in the first copy that covers it; for values that lead to no interface |
| ShownExactly.RegisterShownExactly | internal/uprobe/value.go:365-405 | a value in registers is shown from a copy at each of its strings', slices' and interfaces' data words where 64 bytes can be read, or as unavailable if an itab cannot be read |
| ShownExactly.PointerShownExactly | internal/uprobe/value.go:128-143 | a pointer is shown as nil, as an address, as unavailable, or as the object its 64 bytes tell with a copy at each data word in them |
| RecipeTexts.InterfaceShownExactly | internal/uprobe/value.go:153-214 | an interface is shown from the 64 bytes behind its data word and behind each of its learned type's first four texts for which a leaf is left |
| RecipeTexts.CompiledRules | internal/uprobe/recipe.go:19-58 | the compiled recipe has exactly one rule for each of the first four strings and slices of the value, or of a pointer's target, in order, and following it from the data word leads to the word stored at that text's offset |
| ExactList.ByteSliceShownIff | internal/uprobe/value.go:548-567 | a byte slice is shown with its text if and only if 64 bytes can be read at its array, else with length and capacity only |
| ExactList.RegisterShownIff | internal/uprobe/value.go:147-151 | a value in registers that leads to no interface is shown as it is if and only if nothing of it is missing from its copies |
| ExactList.ObjectShownIff | internal/uprobe/value.go:128-143 | the same for the object behind a pointer: nil, shown as an address, or 64 bytes readable and nothing missing from its copies |
| ExactList.InterfaceShownIff | internal/uprobe/value.go:568-612 | the same for an interface with or without a learned type |
| ExactList.TextsCopied | internal/uprobe/value.go:201-214 | for texts whose words lie in the first 64 bytes the copies are those bytes and the 64 bytes behind each word for which a leaf is left |
| ExactList.ErrorTextShownIff | internal/uprobe/recipe.go:19-58 | the text of an error in an interface whose type is learned is shown if and only if 64 bytes can be read behind it and one leaf is left |
| WholeList.PlannedIff | internal/uprobe/auto.go:226-336 | a variable is planned if and only if no part of its type is unsupported and, with those before it, there are at most eight leaves |
| LiveView.RenderFaithful | internal/uprobe/value.go:505-661 | a rendering over any snapshot that is true of memory never shows anything a live reading would not, unless the value itself leads to an interface holding a struct that only looks direct or to an itab at the address of a known type |
| LiveView.RenderHeld | internal/uprobe/value.go:579-590 | a register interface, whose first word is its type, is rendered as that type, and the fallback that would take it for an itab finds nothing, as long as no known type's address follows an unknown type's |
| LiveView.InterfaceFreePlain | internal/uprobe/value.go:459-503 | a type from which no interface can be reached never leads to one, whatever the memory holds |
| Skipped.ShownTrulyIff | internal/uprobe/auto.go:140-147 | a planned variable is shown truly for all registers, memory, values, recipes, type tables and display options if and only if no variable skipped before it occupies a register |
| Skipped.WordsCompare | internal/uprobe/auto.go:194-202 | the planner's word is never behind the variable's own, and is it exactly if no skipped variable occupies a register |
| Skipped.DecidingDiffers | internal/uprobe/value.go:505-661 | a value read with its deciding word zero is never a faithful picture of one whose word is not, for every type with a part near enough to be shown |
| OwnLeaves.OwnLeavesIff | internal/uprobe/value.go:216-251 | for all registers, recipes and memories made of pages without the lowest the decoder comes to an interface with its cursor at that interface's own leaves if and only if every variable planned before it is orderly or the plan fills the event |
| OwnLeaves.HolderFallsApart | internal/bpf/ftrace.c:494-533 | in the witness memory of one or two pages a variable that is not orderly is owed a leaf and takes none, or takes one and is owed none |
| WrongLeaf.WrongLeafShown | internal/uprobe/value.go:147-151 | with an interface in a register struct before it an interface holding a string is shown with the other one's text, truly only if the texts agree |
| Witnesses.WrongLeafExample | internal/uprobe/value.go:147-151 | 256 bytes of memory, four registers and the recipe of strings on which an interface holding one text is shown with another |
| AutoFetch.EncodedLeaf | internal/bpf/ftrace.c:397-444 | an encoded and loaded rule makes the probe fetch exactly the leaf the plan asked for |
| AutoFetch.MemPathsAgree | internal/uprobe/auto.go:413-435 | for every type the address the decoder computes from the object's bytes is the address the probe's add and dereference steps reached, or none |
| AutoFetch.ObjectSnapshotSound | internal/uprobe/value.go:305-363 | every chunk bound for an object behind a pointer equals memory at its address on the bytes its rule fetched, 64 or 8 |
| Faithfulness.RegPathsAgree | internal/uprobe/value.go:365-405 | register captures are bound at the addresses their registers held |
| Faithfulness.WordsFlatten | internal/uprobe/auto.go:344-395 | fetched words flatten the value the registers hold, in the planner's order |
| FetchPlan.PlanIsWhole | internal/uprobe/auto.go:137-213 | a plan never splits a value: leaf counts add up to the number of fetches and to at most 8 |
| AutoFetchTheorem.PlanTakesRegistersInOrder | internal/uprobe/auto.go:194-202 | the words of any plan are the first ABI registers, each once and in order, so they never run out |
| FetchPlan.WordSpecsCount | internal/uprobe/auto.go:494-521 | the emitter appends exactly as many words as were reserved |
| FetchPlan.MemSpecsCount | internal/uprobe/auto.go:440-467 | the memory emitter appends exactly as many leaves as were reserved |
| FetchPlan.FlatCtx.PlanValue | internal/uprobe/auto.go:226-336 | one planner call: planned exactly if supported and fitting, with which fetches, or nothing changed |
| FetchPlan.FlatCtx.EmitABI | internal/uprobe/auto.go:344-395 | the imperative emitter appends the specified words and jobs, and is broken only past the last register |
| FetchPlan.DeriveArgs | internal/uprobe/auto.go:137-151 | the loop over the variables computes the specified plan |
| FetchPlan.MarkIfaceSlots | internal/uprobe/auto.go:469-488 | the two loops mark a data slot with the last type slot of the same prefix |
| KernelFetch.SetArgRules | internal/bpf/bpf.go:153-192 | exactly when rules are refused, when an empty list makes it panic, and when installed; the first faulty fetch decides, and each installed rule encodes its fetch |
| KernelFetch.RegisterNumbersAgree | internal/bpf/ftrace.c:292-346 | the number user space encodes for a register makes the probe read that register |
| KernelFetch.EventBuffer.FetchArgs | internal/bpf/ftrace.c:537-564 | the unrolled loops fill the event with the specified leaves |
| KernelFetch.EventBuffer.ApplyTypeRecipes | internal/bpf/ftrace.c:494-533 | recipe leaves are appended in rule order, eight leaves at most |
| Snapshot.ConsumeMemBinds | internal/uprobe/value.go:305-363 | binding a value's captures takes exactly its number of leaves and binds the i-th at the i-th address |
| Snapshot.ConsumeRegBinds | internal/uprobe/value.go:365-405 | the same for register values |
| Snapshot.MemSnapshot.ConsumeMemCaptures | internal/uprobe/value.go:305-363 | the walk that appends chunks computes the specified snapshot |
| Scatter.ScatterUndoesFlattening | internal/uprobe/value.go:411-450 | scattering the words of a supported struct puts every field's bytes at its own offset and consumes exactly its words |
| Scatter.ScatterWords | internal/uprobe/value.go:411-450 | the in-place walk over the image array computes that image |
| Decode.RenderValues | internal/uprobe/value.go:74-86 | the loop with its two cursors computes the specified rendering of the list, of which `ExactList.AutoFetchExact` says what it shows |
| Exactness.FlatRegisterExact | internal/uprobe/value.go:147-151 | numbers and structs of numbers in registers are shown exactly as they are |
| Exactness.StringShownIff | internal/uprobe/value.go:153-158 | a non-empty string variable is shown, and then exactly, if and only if 64 bytes can be read at its data |
| Exactness.PointerShownIff | internal/uprobe/value.go:128-143 | a pointer to a plain struct of at most 64 bytes is shown exactly if and only if nil or 64 bytes can be read |
| Exactness.TypeLeafSoundIff | internal/uprobe/value.go:333-345 | the chunk of an in-memory type word is true of memory if and only if the next 56 bytes are zero |
| Exactness.InterfaceFaithfulIff | internal/uprobe/value.go:106-115 | a top-level interface with methods, without rules for its type or given its own recipe leaves, is shown truly if and only if its itab is nil or readable |
| Witnesses.ItabExample | internal/uprobe/value.go:106-115 | two registers in which such an interface holds the number 7 and is not shown truly |
| Exactness.DirectStructFaithfulIff | internal/uprobe/value.go:459-503 | before and after its type is learned a top-level interface holding a one-pointer struct is shown truly if and only if the field is hidden, the pointer nil, its target not copied, or the target's first word not nil and leading out of the copy or to a value that looks the same |
| Exactness.OnePointerHasNoRules | internal/uprobe/recipe.go:19-58 | the compiled recipe of a one-pointer struct is empty, so a learned table never holds rules for it |
| Witnesses.PointerStructExample | internal/uprobe/value.go:459-503 | two registers and 64 bytes on which such an interface is shown falsely, before and after its type is learned |
| Exactness.SameFlatTarget | internal/uprobe/value.go:505-661 | for plain data the two look the same exactly if the live views at both addresses are equal |
| Recipes.LeafBoundWhereRead | internal/uprobe/value.go:185-214 | a recipe leaf is bound at the very address it was copied from, or nowhere |
| Recipes.BindSound | internal/uprobe/value.go:201-214 | binding a recipe's leaves keeps the snapshot true and takes exactly those leaves |
| Recipes.AppendedInOrder | internal/bpf/ftrace.c:494-533 | an event is its rules' own leaves, then what is owed to each interface in rule order, cut at eight |
| Recipes.SetTypeRecipe | internal/bpf/bpf.go:194-218 | the fixed-size encoding keeps the first four rules and the first eight steps of each |
| Recipes.FittingRule | internal/bpf/bpf.go:194-218 | an encoded rule makes the probe take the rule's own steps if and only if it has at most eight, with 16-bit offsets |
| Recipes.CompiledRecipeFits | internal/uprobe/recipe.go:19-58 | the rules that `RecipeTexts.CompiledRules` says are compiled survive the encoding, for types under 32 KiB nested at most seven deep |
| Recipes.NestedRecipeFitsIff | internal/uprobe/recipe.go:19-58 | both bounds are needed: the recipe of a string nested n deep survives exactly if n is at most seven and the offsets fit 16 bits |
| RecipeTheorem.GroupMarks | internal/uprobe/auto.go:469-488 | of an orderly variable exactly a top-level interface's data slot is marked, with its own type slot |
| RecipeTheorem.GroupOwed | internal/bpf/ftrace.c:494-533 | such a variable is owed the recipe of the interface it is, or nothing |
| RecipeTheorem.CursorsOwn | internal/uprobe/value.go:74-86 | decoding orderly variables moves both cursors past exactly their own leaves |
| Accounting.MemoryAccountingIsExact | internal/eventmanager/handler.go:14-152 | after any events the budget counter is the number of retained events and within the budget, at most 64 processes and 10000 suppressed goroutines exist, none suppressed holds an event, drops have exactly three causes |
| Suppression.StartsAnew | internal/eventmanager/handler.go:69-78 | a start leaves just its own call held and open, whatever was left over of the goroutine |
| Suppression.EndsWithItsEnd | internal/eventmanager/handler.go:247-257 | in adaptive mode a sample leaves the reader with the event that carries the end mark, whatever was lost before, and with no other |
| Accounting.BudgetIs | internal/eventmanager/eventmanager.go:258-263 | the budget is the number of 2 KiB events that fit a quarter of the memory limit, at least one |
| Accounting.EvictKeeps | internal/eventmanager/eventmanager.go:147-173 | an eviction releases exactly the evicted process's events from the budget |
| ProcessTable.TableIsLru | internal/eventmanager/eventmanager.go:137-179 | after any events a process is in the table if and only if it was requested and, in adaptive mode, fewer than 64 others were requested since |
| ProcessTable.EvictionIsLocal | internal/eventmanager/eventmanager.go:147-173 | the evicted process is the one with 63 others requested since; only its events and suppressed goroutines go |
| Goroutines.HandleOf | internal/eventmanager/handler.go:14-67 | an event changes its own goroutine as that goroutine alone says and no other, except where adaptive mode drops over budget, evicts or suppresses |
| Goroutines.InterleavingDoesNotMatter | internal/eventmanager/handler.go:80-166 | without adaptive mode each goroutine ends with what its own events alone would have left |
| Samples.EverySampleIsComplete | internal/eventmanager/handler.go:294-320 | whenever aggregation is reached the events form matched call trees of one goroutine, the early return is not taken, and one record per entry is made with its return's clock reading minus its own and the entry's rate |
| TraceEvents.ElapsedIsBetween | internal/eventmanager/handler.go:316-317 | the recorded time is the difference of the two readings, for all readings less than 2^63 ns apart |
| Samples.RecordsOnlyFromSamples | internal/eventmanager/handler.go:36-45 | records appear only from such samples; every other event leaves them alone |
| Samples.OneRecordPerEntry | internal/eventmanager/handler.go:302-319 | matched calls have as many records as entries and twice as many events |
| Agreement.DepthAgrees | internal/bpf/ftrace.c:620-676 | in every well-nested run root_depth counts the root's frames, the observed stack is the sample's true calls, and, if nothing was given up, the reader holds a sample exactly while the kernel follows it |
| Agreement.DecisionsAgree | internal/bpf/ftrace.c:737-755 | both sides take the same entries for repeats, and the end mark is set exactly when the reader's stack becomes empty |
| Agreement.NothingIsIncomplete | internal/eventmanager/handler.go:69-78 | without queue loss no sample is ever dropped as incomplete |
| Agreement.EndedSamplesAreAggregated | internal/eventmanager/handler.go:247-257 | and if nothing was given up every sample the kernel ends is aggregated |
| CallTrees.SampleIsRecorded | internal/eventmanager/handler.go:294-320 | in every well-nested run in which nothing was given up, when a sample's root call returns its process gains exactly one record for it and one for every call the goroutine really made inside, each with the clock reading of its own return minus that of its own (last repeated) entry, its own results and the sample's weight |
| Agreement.ReturnKeeps | internal/bpf/ftrace.c:697-757 | the kernel ends a sample exactly when its root call returns |
| TraceKernel.TraceProbes.Ent | internal/bpf/ftrace.c:601-695 | a goroutine not followed is followed from now on exactly if the function is wanted, the draw admits the call and fewer than 10000 are followed; then its state and one start event carry the probe's own values, else nothing changes but the one counter that says why |
| Admission.WantedCallStarts | internal/bpf/ftrace.c:620-668 | in any run, adaptive or not, a call of an idle goroutine begins a sample if and only if it is wanted, drawn and there is room; so at rate 1 every wanted call with room does |
| Admission.ReaderStarts | internal/eventmanager/handler.go:80-152 | and then the reader holds just that call, open |
| Admission.SamplesAreBounded | internal/bpf/ftrace.c:669-694 | a sample has at most 4096 events; the next probe, and only it, sends an abort and ends the following |
| Admission.PlainRunReports | internal/bpf/ftrace.c:601-780 | without adaptive mode, at the default rate and for at most 10000 goroutines, exactly the goroutine's own probes are reported from its first wanted entry until it exits, in order and unmarked |
| Admission.PlainStackIsTrue | internal/eventmanager/handler.go:154-166 | and the stack the reader holds is exactly the calls the goroutine is inside of above the lowest point since then |
| Suppression.SuppressionMoves | internal/eventmanager/handler.go:80-108 | after any event, which goroutines are ignored and what counts as over budget: only a refusal, once; ignored until its end, exit, abort or new start |
| Suppression.CountedOnce | internal/eventmanager/handler.go:80-108 | so a sample over budget is counted once, whatever more of it comes |
| Suppression.DropsAreCounted | internal/eventmanager/handler.go:14-67 | aborts, leftovers found by a start and samples that close broken are each counted once, and nothing else is |
| TraceKernel.TraceProbes.Ret | internal/bpf/ftrace.c:698-757 | the return probe's effect on state and queue |
| TraceKernel.TraceProbes.GoroutineExit | internal/bpf/ftrace.c:760-780 | the exit probe forgets the goroutine and reports it only if it was followed |
| EventManager.EventManager.Handle | internal/eventmanager/handler.go:14-67 | the method turns the objects' state into the specified state |
| EventManager.EventManager.Add | internal/eventmanager/handler.go:80-152 | the same, and the event is kept exactly if the specification keeps it |
| EventManager.EventManager.PidState | internal/eventmanager/eventmanager.go:137-179 | the look-up with its search for the oldest process computes the specified table |
| EventManager.EventManager.DropStack | internal/eventmanager/handler.go:263-281 | three deletes and the budget correction |
| EventManager.ProcessState.Aggregate | internal/eventmanager/handler.go:294-320 | the loop with its early return makes the specified records, of which `CallTrees.SampleIsRecorded` says what they hold |
| Aggregation.SpaceSavingBounds | internal/eventmanager/handler.go:352-381 | counts add up to the total weight, each interval holds the true weight, errors are at most a 64th, everything heavier is tracked, error 0 is exact; for any tie-breaking |
| Aggregation.FuncAgg.RecordRetval | internal/eventmanager/handler.go:352-381 | the map search and replacement make one step of that algorithm |
| Aggregation.BucketMeans | internal/eventmanager/handler.go:323-346 | a latency bucket holds exactly the times above one power of ten of a microsecond and up to the next |
| Aggregation.FuncAgg.RecordCall | internal/eventmanager/handler.go:323-346 | one call more in every tally: the counters, the first latency bucket whose edge is not exceeded, and the return values; the histograms account for every call |
| Summaries.ProcessAggregates.RecordAgg | internal/eventmanager/handler.go:323-346 | finds or makes the function's entry by name and records the call there only |
| Summaries.ProcessAggregates.Feed | internal/eventmanager/handler.go:294-320 | after any calls each function's entry summarises exactly its own calls, and functions without calls have none |
| Summaries.SummaryTells | internal/eventmanager/handler.go:323-346 | such a summary counts its calls, their weights and every latency bucket exactly, and its return values are a run of Space-Saving over the calls that returned something |
| Summaries.SummariesAreBounded | internal/eventmanager/handler.go:352-381 | so after any event stream the Space-Saving bounds hold for every function of every process |
| Sampler.NextServes | cmd/sampler.go:67-141 | from every safe state the next denominator serves the window: 2^20 at the heap limit, at least 64 and 8 at 85 and 70 percent of it, above the current one with the 1.5 headroom after loss, or the cap; it rises only to the least such value, and loss never lowers it |
| Sampler.NextFalls | cmd/sampler.go:109-125 | it falls exactly without loss, after five to fourteen windows without loss, if half of it is above the floor and less serves the heap, to its half or the least that serves the heap; between 45 and 70 percent it stays |
| Sampler.LossRemembered | cmd/sampler.go:84-125 | a denominator at which events were lost is not returned to within fifteen windows |
| Sampler.FloorHalves | cmd/sampler.go:98-107 | the floor is halved after fifteen windows without loss and a change, not before |
| Sampler.SamplerIsSafe | cmd/sampler.go:84-125 | in every run 1 <= den <= 2^20 and above the floor unless capped, decreases land above the floor, five windows apart and after five quiet ones |
| Sampler.SamplerRecovers | cmd/sampler.go:84-125 | from every reachable state calm windows bring the denominator back to 1 within the stated number of windows |
| Sampler.BoundIsTight | cmd/sampler.go:84-125 | one window less suffices from every safe state and for all calm windows, except exactly when 14 windows without loss are counted, there is no floor and the denominator is above 1 |
| Sampler.CalmStep | cmd/sampler.go:84-125 | every calm window brings the denominator to 1 or lowers the count of windows still needed |
| Sampler.RaisedIsLeast | cmd/sampler.go:130-141 | where the conversion is defined the raised denominator is the least one above the current with the 1.5 headroom, or the cap if that one lies beyond it |
| Sampler.HeadroomMeans | cmd/sampler.go:130-141 | that headroom in terms of the loss: the admitted share is at most 1/1.5 of what the reader kept up with |
| Sampler.PercentIsFloor | cmd/sampler.go:168-170 | the split percentage is the floor of the exact one and no step overflows 64 bits |
| Sampler.AdaptiveSampler.Adjust | cmd/sampler.go:84-125 | the method makes one step of the controller that `Sampler.NextServes` and `Sampler.NextFalls` determine |
| Sampler.LossMeter.LossRateSince | cmd/tracer.go:375-385 | the method returns the window's loss and remembers the reading |
| Sampler.LossesAddUp | cmd/tracer.go:375-385 | loss rates are proportions and the windows' losses add up to all drops |
| FetchExpr.FetchExprRoundTrip | cmd/tracer.go:127-175 | printing a function name and a list of rules and parsing them back gives the same name and rules |
| FetchExpr.MatchingParen | cmd/tracer.go:136-153 | the backward scan stops at the parenthesis that matches the last one, whatever parentheses the name contains |
| FetchExpr.ArgRoundTrip | internal/uprobe/fetcharg.go:67-153 | one printed rule, with offsets of either sign, parses back to itself and its type's size |
| FetchExpr.TypesAccepted | internal/uprobe/fetcharg.go:76-105 | exactly the fifteen types u8 to c512 are accepted, each with its size |
| FetchExpr.RegistersAreKnown | internal/uprobe/fetcharg.go:161-171 | the registers a rule may name are those the probes can read |
| FetchExpr.DigitsOnly | internal/uprobe/fetcharg.go:180-190 | a number is digits only, and leading zeros change nothing |
| FetchExpr.ParseFetchExpr | cmd/tracer.go:127-175 | the scanning loops compute the specified parse, errors included |
| FetchExpr.VarsAccepted | cmd/tracer.go:154-170 | a variable list is accepted if and only if every part has exactly one equals sign |
| FetchExpr.ArgAccepted | internal/uprobe/fetcharg.go:67-153 | a rule is accepted exactly if it has one colon, a known type and an operation in every part of its address; an empty type panics |
| FetchExpr.NoRulesIff | internal/uprobe/fetcharg.go:115-152 | an accepted argument has an empty rule list exactly if its address is made of parentheses only |
| FetchExpr.NewFetchArg | internal/uprobe/fetcharg.go:67-190 | the tokenising loop and the reversal compute the specified rules, errors included |
| DieWalker.ChildrenOfTree | elf/dwarf_args.go:76-112 | on the prefix-order stream of any tree with null-terminated sibling chains the walk returns exactly the direct children, in order, and nothing after their terminator matters |
| DieWalker.DieChildren | elf/dwarf_args.go:76-112 | the loop with its depth counter computes that walk on any stream |
| Drain.ShutdownLosesNothing | internal/bpf/bpf.go:332-379 | in every interleaving the channel closes only with the queue empty and exactly the accepted events delivered, once each and in order |
| Drain.DeliveredInOrder | internal/bpf/bpf.go:332-379 | at every moment the delivered events are the oldest accepted ones |
| Drain.NothingRefused | internal/bpf/bpf.go:332-379 | until 10000 events have been produced all of them are accepted |
| Drain.DrainProgress | internal/bpf/bpf.go:332-379 | after cancellation only poller steps are left, each brings the end closer, and until the channel closes one is possible |
| Drain.DrainTerminates | cmd/tracer.go:315-334 | after cancellation the drain ends within a bounded number of steps |

## Left out

- Types are told apart by constructor, not by the name and field tests of `internal/uprobe/auto.go:571-600`, so a type is never a string and a slice at once.
- WholeList.AutoFetchFaithful: leaves out floats, which Go passes in registers of their own, stack arguments, interfaces with methods inside pointed-to structs, itabs unreadable at the probe, values that lead to an interface holding a one-pointer struct and processes in which an itab or the word after an unknown type is the address of a known one, because the code is not faithful there or documents them as unsupported; the exact conditions are in `Skipped`, `OwnLeaves` and `Exactness`.
- ExactList.AutoFetchExact: leaves out the same, and recipes other than the compiled ones of their types, which is all that is ever installed.
- WholeList.RecipeLeavesLineUp: names (which matter only where there are recipe leaves to take) must be distinct and contain no dot and no field may be called `type`, as in Go, and recipes must fit the fixed-size encoding.
- The type name strings of fetch arguments, and all printing: number formats, quoting, colours, the order of the summary.
- The tests for an empty register name after `reserve` succeeded (`internal/uprobe/auto.go:240-242`): `PlanTakesRegistersInOrder` shows they never fire.
- The event manager keeps a process's `recordAgg` calls as a list in order; `Summaries.ProcessAggregates` is the table they feed.
- EventManager.EventManager.Handle: which addresses drill-down does not print is a parameter, and printing is reduced to the process look-up it makes; the mutex around the table, which one goroutine takes, is not modelled.
- Event text: what the arguments of an event render to is a field of the event, so learning interface types between two events has no effect on the stacks.
- Counters and identifiers are unbounded integers; differences of times and of queue counters, and addresses, are taken modulo 2^64 as in the code.
- Agreement.DepthAgrees: assumes that events reach the reader in order and without queue loss, and that the tables the probes read were filled from one list of probes.
- Poll-and-drain and its producers are steps of one state machine rather than goroutines; a queue read that fails is left out.
- `FunctionVariables` beyond its child walk, symbol tables, x86 decoding, attaching probes, map creation, process namespaces, `MatchWildcard`, `ResolveAddress` and the window statistics: library plumbing or easy members.
- Whether `typeIsDirect` equals Go's own flag: it is taken as a definition.
- Statistical accuracy of sampled estimates.
