# Haste: data structures and small algorithms of the compiler front end

This project models the parts of the Haste compiler that have to agree with something simpler
than themselves, and proves that they do. Each part is a module of its own.

- `HashTable` (on `Circular`) is the Robin Hood table behind every scope: a dense item array
  behind an `index`/`dist` probe table. The invariant of the probe table is stated once, on values
  (`Probe`), and the loops of put, get, delete and resize are proved to keep it. For every history
  of put and delete the table is the finite map that the history describes. The hash function is
  a parameter.
- `PathSpec`, `PathText`, `PathLaws` and `Path` are the lexical path functions in the Unix style.
  `PathSpec` has the reference, a stack machine over segments, and the counters that the scans
  compute; `PathText` has strings and what the functions should produce; `PathLaws` says what that
  is by rewriting rules over the strings "." and ".." alone; `Path` has the iterators, the scans and
  the writers, over a buffer of any size.
- `Arith`, `Ast`, `Outcomes`, `Faults`, `Analysis` and `Layout` are the demand-driven analysis of global constants over
  integer literals, names, grouping and `+ - * /`: checked 64-bit arithmetic, the definitions read
  as equations, and the analyser that overwrites its arena of nodes. An expression denotes a number
  when replacing names by their definitions often enough leaves one, which makes sense in rejected
  programs too. `Outcomes` says what an expression comes to when it denotes none, and which of its
  parts are looked at; `Faults` which reports a program calls for. `Layout` builds the arena of a list of definitions, and compares the analyses of one
  list in two orders. The process runs with `--no-fun`, so without its random diagnostics.
- `Int32` and `Folding` are what the same analysis does to an expression with variables of type
  `int` in it, and what the emitted 32-bit code computes for the folded tree.
- `Intern` (on `Circular` and `Bits`) is string interning; a pointer is the number of the copy in
  the arena.
- `TokenStream`, `Grammar`, `Nodes` and `Parser` are the on-demand token window, precedence
  climbing against a stratified grammar, the nodes and the tokens they list, and the parser that
  reads from the window. The scanner is a function from a position to what is found there.
- `Arena` (on `Bits`) is the aligned bump allocator. The child allocator is a parameter that
  hands out memory that overlaps nothing it handed out before.

`Wrappers` and `Sequences` hold an option, a result and one fact about sequences.

## What turned out not to hold

- Joining a base with the relative path to a target does not always give the normalised target.
  `RelativeRoundTrip` says exactly when it does: both have the same root, and the target is
  absolute, or has a segment and leaves through at least as many leading `..` as the base.
  `RoundTripMisses` has an input for each way to fail.
- Folding a constant division in 64 bits can differ from the emitted 32-bit division.
  `FoldedDivisionDiffers` is an instance, `DivisionAgreesIff` the exact condition for any two
  operands, and `FoldedDivisionIff` the same for a folded node. A tree can hide such a difference,
  as a factor 0 does (`DifferenceHidden`).
- Interning a prefix of an interned string by its own pointer can return the whole string
  (`source/intern.c:80` compares the pointers before the lengths): `EmptyPrefixOfR` does it in two
  calls on a new table, `InternStr` says exactly when it happens, and that it never does for
  strings from outside the table or for whole interned ones.
- Advancing the token stream at the end of the file, before the end has been seen, moves the read
  cursor past the write cursor: `AdvanceAtEnd` does it on a file without tokens, and
  `Stream.Advance` says exactly when it happens. The parser's own `advance` never does so.

## Model

| member | source | states |
|---|---|---|
| HashTable.Probe.Run | include/my_hashtable.h:204-252 | an item at distance d has d items right before it, none nearer to its home than by one a step |
| HashTable.Probe.EarlyExit | include/my_hashtable.h:266-283 | when a probe meets a free slot or a smaller distance, no stored key is the one looked for |
| HashTable.Probe.FreeExists | include/my_hashtable.h:194-196 | with fewer items than slots some slot is free, so every probe ends |
| HashTable.Probe.FreeBeside | include/my_hashtable.h:346-364 | during the backward shift a free slot still ends the loop |
| HashTable.Probe.Placed | include/my_hashtable.h:225-246 | writing the carried item into a free or richer slot keeps the invariant for everything but the item that was there, which is carried on |
| HashTable.Probe.Dropped | include/my_hashtable.h:316-345 | moving the last item into the hole leaves a table that is whole except for the emptied slot |
| HashTable.Probe.Shifted | include/my_hashtable.h:351-358 | one backward shift moves the hole one slot on and keeps everything else |
| HashTable.Probe.Cleared | include/my_hashtable.h:361-364 | emptying the hole where the shift stops restores the full invariant |
| HashTable.Seek.Skipped | include/my_hashtable.h:217-252 | passing a slot with another key and no smaller distance keeps the loop's invariant, one step nearer to the free slot |
| HashTable.Seek.NeverTheKey | include/my_hashtable.h:217-228 | once an item was displaced, the key comparison that goes on can never succeed |
| HashTable.Seek.Displaced | include/my_hashtable.h:230-252 | displacing an item neither loses nor duplicates an index, and the loop is one step nearer to the free slot |
| HashTable.Seek.Finished | include/my_hashtable.h:205-216 | the loop ends in a table with the full invariant, holding the old keys and the new one |
| HashTable.MoveOne | include/my_hashtable.h:165-175 | re-inserting the next item of the old table: there is always room, so resize never re-enters itself |
| HashTable.MovedAll | include/my_hashtable.h:165-175 | after the last slot the new map is the old map |
| HashTable.Table.Init | include/my_hashtable.h:110-134 | a fresh table of the given capacity is empty |
| HashTable.Table.Find | include/my_hashtable.h:259-283 | the probe finds the slot of the key exactly when the key is stored |
| HashTable.Table.Get | include/my_hashtable.h:255-284 | the item stored under the key, or NULL when there is none |
| HashTable.Table.Insert | include/my_hashtable.h:198-252 | the loop adds the item or replaces the one with its key, and keeps the invariant |
| HashTable.Table.Put | include/my_hashtable.h:180-253 | the map gains or replaces just this item, through a resize or not, and the load bound holds |
| HashTable.Table.Resize | include/my_hashtable.h:147-178 | capacity doubles, and the map and the number of items stay |
| HashTable.Table.Relink | include/my_hashtable.h:325-342 | the search for the slot that names the last item ends at that slot |
| HashTable.Table.BackShift | include/my_hashtable.h:347-364 | the shift loop turns a table with a hole into one with the full invariant |
| HashTable.Table.RemoveAt | include/my_hashtable.h:312-365 | the items are those of before without the removed one, still compact |
| HashTable.Table.Del | include/my_hashtable.h:286-365 | the map loses just this key, and nothing changes for a key that is not there |
| HashTable.LastPutWins | include/my_hashtable.h:180-365 | after a history a key has the item last put under it and not deleted since, or none |
| HashTable.Run | include/my_hashtable.h:110-365 | running any history from the empty table ends in a valid table whose map is the history's |
| PathSpec.PushAllNormalForm | source/cwalk.c:609-683 | the stack machine ends in a run of `..`, none when absolute, then normal segments |
| PathSpec.NormalFormFixed | source/cwalk.c:609-683 | a normal form is what it normalises to |
| PathSpec.NormalStacked | source/cwalk.c:408-443 | a normal segment is on the stack exactly when the forward counter has not dropped below zero |
| PathSpec.BackStacked | source/cwalk.c:366-406 | a `..` of a relative path is on the stack exactly when the backward counter never climbs above zero |
| PathSpec.ClimbsStep | source/cwalk.c:379-405 | one step of the backward scan extends what is known of its counter by one segment |
| PathSpec.DropsStep | source/cwalk.c:417-442 | one step of the forward scan does the same for its counter |
| PathSpec.ScansMatchStack | source/cwalk.c:445-465 | a segment survives the scans exactly when the stack machine keeps it |
| PathSpec.KeptIsNormal | source/cwalk.c:646-675 | the surviving segments, in order, are the stack machine's result |
| PathLaws.ResolvedIff | source/cwalk.c:609-683 | the resolved segments are the only ones in which these rules end, in whatever order they are applied: take out a "."; take out a name and the ".." right behind it; in an absolute path take out a ".." at the front |
| PathLaws.DotDropped | source/cwalk.c:1334-1346 | taking out a "." changes nothing |
| PathLaws.PairDropped | source/cwalk.c:408-443 | taking out a name, which is any text but "." and "..", and the ".." behind it changes nothing |
| PathLaws.RootDropped | source/cwalk.c:366-406 | nor does a ".." at the front of an absolute path |
| PathLaws.NamesKept | source/cwalk.c:1334-1346 | segments none of which is exactly "." or ".." are kept as they are |
| PathText.SpansTile | source/cwalk.c:198-239 | the segments of a string are exactly its maximal stretches without separators |
| PathText.NextSpan | source/cwalk.c:1265-1301 | the next segment is found by skipping the separators behind this one |
| PathText.SplitJoin | source/cwalk.c:650-675 | segments joined by separators and split again are the same segments |
| PathText.ReadBack | source/cwalk.c:609-683 | a normalised path has the same root and, read again, the resolved segments |
| PathText.Idempotent | source/cwalk.c:1150-1160 | normalising a normalised path changes nothing |
| PathText.OutputNormalForm | source/cwalk.c:609-683 | the output is "." alone, or the root followed by a normal form joined by single separators |
| PathLaws.NormalizedByRules | source/cwalk.c:609-683 | the text written is the root and what the rules end in, joined, or "." when that is nothing and the path was relative with a segment |
| PathLaws.JoinTight | source/cwalk.c:650-675 | joined segments have single separators between them and none at either end |
| PathText.PushUps | source/cwalk.c:803-822 | going up pops normal segments first, and then piles up `..` |
| PathText.WalkHome | source/cwalk.c:757-862 | the relative segments lead from the base to the path when the base has no more leading `..` than the path |
| PathText.WalkAstray | source/cwalk.c:757-862 | otherwise they lead elsewhere |
| PathText.SameString | source/cwalk.c:609-683 | two normalised strings with the same root are equal exactly when their resolved segments are, "." apart |
| PathText.RelativeRoundTrip | source/cwalk.c:757-878 | for any base and path: joining the base with the relative path gives the normalised path exactly when both have the same root, and the path is absolute, or has a segment and at least as many leading `..` as the base |
| PathText.RoundTripMisses | source/cwalk.c:757-878 | the path is missed from ".." to "a", from "" to "", and from "a" to "/b" |
| PathLaws.RelativeShortest | source/cwalk.c:757-862 | whatever segments lead from the base to the path, there are at least as many as the relative path has |
| Path.Cursor.FirstSegment | source/cwalk.c:198-239 | the cursor stands on the first segment, or has size 0 when there is none |
| Path.Cursor.NextSegment | source/cwalk.c:1265-1301 | it moves to the next segment exactly when there is one, and stays otherwise |
| Path.Cursor.PreviousSegment | source/cwalk.c:1303-1332 | it moves to the segment before exactly when there is one |
| Path.Cursor.FirstJoined | source/cwalk.c:261-282 | the first segment among all paths, skipping paths without segments |
| Path.Cursor.NextJoined | source/cwalk.c:284-321 | the next segment among all paths, exactly when there is one |
| Path.Cursor.PreviousJoined | source/cwalk.c:323-364 | the segment before among all paths, exactly when there is one |
| Path.Cursor.BackWillBeRemoved | source/cwalk.c:366-406 | the backward scan answers whether the counter climbs above zero |
| Path.Cursor.NormalWillBeRemoved | source/cwalk.c:408-443 | the forward scan answers whether the counter drops below zero |
| Path.Cursor.WillBeRemoved | source/cwalk.c:445-465 | the two scans together answer whether the segment is dropped |
| Path.Cursor.SkipInvisible | source/cwalk.c:467-478 | it stops at the next segment that is kept, and skips only dropped ones |
| Path.Output | source/cwalk.c:45-72 | as much of the text as fits is written, and its whole length returned |
| Path.Terminate | source/cwalk.c:116-126 | the zero stands behind the text, or in the last place of a buffer that is too small |
| Path.JoinAndNormalizeMultiple | source/cwalk.c:609-683 | the buffer holds the normalised path, cut to its size, and the length returned is that of the whole |
| Path.Normalize | source/cwalk.c:1150-1160 | the same for one path |
| Path.Join2 | source/cwalk.c:864-878 | the same for two paths |
| Path.FullPath | source/source.c:104-113 | a first call for the length and a second into a buffer of that size gives the whole path |
| Path.SkipUntilDiverge | source/cwalk.c:721-755 | both cursors stop behind the longest common prefix of the resolved paths |
| Path.WriteLeft | source/cwalk.c:803-843 | one mark per kept segment that is left, `..` or the segment |
| Path.GetRelative | source/cwalk.c:757-862 | the relative path: one `..` per base segment past the common part, then the rest of the path; "." when there is neither |
| Arith.TruncDivRemainder | source/value.c:302 | the quotient leaves a remainder smaller than the divisor with the dividend's sign |
| Arith.TruncDivUnique | source/value.c:302 | and is the only number that does, as section 6.5.5 of ISO/IEC 9899:2011 has it |
| Arith.MulGuardExact | source/value.c:285-292 | the overflow guard of multiplication fires exactly when the product does not fit |
| Arith.ArithInt | source/value.c:265-311 | a result exactly when the divisor is not zero and the true result fits in 64 bits, and then it is the true sum, difference, product, or quotient rounded toward zero; no guard overflows |
| Ast.HoldsFrame | source/ast.c:292-307 | a tree depends on its own nodes only, so overwriting others leaves it |
| Ast.SolutionUnique | source/analysis.c:1300-1321 | definitions without cycles have at most one solution |
| Ast.SolvesWhole | source/analysis.c:1300-1321 | a solution solves the definitions as equations between unbounded integers |
| Ast.OrderIrrelevant | source/analysis.c:1300-1321 | accepted analyses of the same definitions give the same values, in whatever order the declarations stand |
| Ast.DenotesOnce | source/analysis.c:1300-1321 | an expression denotes at most one number, whether the program is accepted or not |
| Ast.SolvableIffValues | source/analysis.c:1300-1321 | the definitions have an acyclic solution exactly when each of them denotes a number |
| Outcomes.CycleHasNoValue | source/analysis.c:182-187 | a name on a cycle of definitions denotes no number |
| Outcomes.CyclesUnsolvable | source/analysis.c:182-187 | a name on a cycle makes the definitions unsolvable |
| Outcomes.EndsOnce | source/analysis.c:297-325 | an expression comes to one value - a number, bad, or unknown - whatever is analysed first |
| Outcomes.EndsMeans | source/analysis.c:297-325 | a number comes out exactly where one is denoted |
| Analysis.State.SetKeeps | source/ast.c:292-307 | injecting a value into the declaration being analysed disturbs no other |
| Analysis.State.RecursionIsCycle | source/analysis.c:182-187 | a lookup that meets level DEFINED has found a real cycle of definitions |
| Analysis.State.MissingName | source/analysis.c:515-518 | a lookup that finds nothing has found a name without definition, and the report about that node is true |
| Faults.JustifiedUnsolvable | source/analysis.c:297-325 | whatever is reported is true of the definitions - a cycle through the name, a name without definition, an operation of the program whose operands denote no numbers, or numbers on which it fails - and leaves them without a solution |
| Faults.OnlyFault | source/analysis.c:297-385 | an operation on two values that are not bad has at most one fault, decided by them |
| Faults.BlamePassed | source/analysis.c:761-841 | a definition without a number is at fault itself, or uses a name from which a walk along the definitions leads to one that is |
| Analysis.State.BeginKeeps | source/analysis.c:765-767 | UNDEFINED to DEFINED pushes the name on the analysis stack, for the first and only time |
| Analysis.State.EndKeeps | source/analysis.c:820-828 | DEFINED to DECLARED pops it with the value of its definition |
| Analysis.State.BinYields | source/analysis.c:297-325 | an operation comes to what applying it to its operands' values gives, and all faults in it are reported, once the one report it needs at its own node has been made |
| Analysis.Analyzer.Overwrite | source/ast.c:292-307 | the invariant holds after an in-place overwrite, and no other node changes |
| Analysis.Analyzer.FindLocalFirst | source/analysis.c:176-196 | missing, the recursion sentinel with a report, or the symbol, then DECLARED; finished names keep their values |
| Analysis.Analyzer.AnalyzeVarDecl | source/analysis.c:761-841 | the declaration ends at level DECLARED with what its definition comes to and every fault in it reported, and the invariant holds |
| Analysis.Analyzer.AnalyzeNode | source/analysis.c:1205-1248 | in every run an expression yields what it comes to; every fault in it that is looked at is reported at its node; without a number, blame leads to a report |
| Analysis.Analyzer.AnalyzeIntegerLit | source/analysis.c:468-481 | a literal becomes a value node, VAL_ZERO for 0 |
| Analysis.Analyzer.AnalyzeIdent | source/analysis.c:506-544 | a name yields what its definition comes to, wherever that stands; a name without definition is reported at this node, and a name on a cycle as recursive |
| Analysis.Analyzer.AnalyzeGrouping | source/analysis.c:693-698 | a grouping yields what its child yields |
| Analysis.Analyzer.AnalyzeBinary | source/analysis.c:297-325 | a bad operand ends the operation, the right one is looked at only after a left one that is not bad, and the operation's own fault is reported at its node |
| Analysis.Analyzer.ResolveBinary | source/analysis.c:352-385 | the node is overwritten with the number that comes out, or the operation's fault is reported at it |
| Analysis.Analyzer.PrepareScope | source/analysis.c:1268-1298 | every declared name gets one symbol at level UNDEFINED; it fails exactly when a name is declared twice, and reports exactly the later declarations |
| Analysis.CompleteSolves | source/analysis.c:1300-1321 | nothing is reported exactly when the definitions are solvable, and then the values solve them |
| Analysis.CompleteMeaningful | source/analysis.c:1300-1321 | in every run, rejected ones too, each name ends with exactly the number its definition denotes and its initialiser overwritten by it, or without one because there is none |
| Analysis.CompleteThorough | source/analysis.c:1300-1321 | in every run the reports are exactly the faults of the program, each at its own node, and some names on cycles; from every name without a number a walk along the definitions leads to one that a report is about |
| Analysis.NothingPastFailure | source/analysis.c:297-325 | nothing in a right operand is reported when the left one, without names, already fails |
| Analysis.UndefinedReported | source/analysis.c:515-518 | a constant defined by a name that nothing defines has a report of its own, whatever else is wrong |
| Analysis.Analyze | source/analysis.c:1300-1321 | OK exactly when names are distinct and the definitions have an acyclic solution, which the symbols then hold; with distinct names every symbol ends DECLARED with the number its definition denotes or none, every initialiser evaluated once, and the reports are exactly the faults of the program; otherwise they are exactly the repeated declarations |
| Layout.LayoutParsed | source/parse.c:564-593 | the arena built for any list of definitions, children before their parents as the parser makes them, is laid out as the analyser expects |
| Layout.ProgramLists | source/analysis.c:1268-1298 | the program in that arena is the list of definitions, by name |
| Layout.PermutedAlike | source/analysis.c:1268-1321 | a list of definitions in another order is the same by name |
| Layout.SameNumbers | source/analysis.c:1300-1321 | two finished analyses of the same definitions agree on every number, also when they failed |
| Layout.AnalyzeTwoOrders | source/analysis.c:1268-1321 | analysing one list of definitions in two orders: both are accepted or neither, and when no name is defined twice, every name gets the same number in both or a number in neither |
| Folding.Folder.Analyze | source/analysis.c:1205-1248 | an error exactly when some part is a name without binding, an operation on constants that 64-bit arithmetic refuses, or an operation on a variable and the literal 0; otherwise the folded tree is left |
| Folding.Folder.AnalyzeIdent | source/analysis.c:506-544 | a constant's name is replaced by its value, a variable's stays |
| Folding.Folder.AnalyzeBinary | source/analysis.c:297-325 | two known operands are folded in 64 bits; with a variable the node stays; the literal 0 beside a variable is rejected, by the same condition |
| Folding.AcceptedIff | source/analysis.c:297-325 | a tree is accepted exactly when no part of it is refused, said of the tree as written |
| Folding.AllKnown | source/analysis.c:297-325 | an accepted tree is known at compile time exactly when it has no variable, with the value it has under the constants, and is VAL_ZERO exactly when it is the literal 0 |
| Folding.ZerosDiffer | source/value.c:125-127 | (1 - 1) + x is accepted and x + 0 is not |
| Int32.WrapHomomorphic | source/codegen.c:253-264 | cutting operands to 32 bits first makes no difference to a sum, difference or product |
| Int32.DivisionAgreesIff | source/value.c:295-303 | for any dividend and any divisor but 0, the exact condition under which dividing first and then cutting to 32 bits gives what the 32-bit division of the cut operands gives |
| Int32.OperandsFit | source/value.c:295-303 | it is met by operands that fit 32 bits, except for the smallest number over -1 |
| Folding.ComptimeWraps | source/codegen.c:153-168 | a constant subtree's 64-bit value, cut to 32 bits, is its 32-bit value, if its divisions agree |
| Folding.FoldingPreserves | source/codegen.c:233-265 | the code for the folded tree computes the 32-bit value of the tree as written, if each folded division agrees with the 32-bit one by the condition of DivisionAgreesIff |
| Folding.FoldingPreservesRing | source/codegen.c:233-265 | so for every accepted tree of `+ - *` |
| Folding.FoldedDivisionDiffers | source/value.c:295-303 | (2147483647 + 1) / 2 is folded to another value than the 32-bit code computes |
| Folding.DifferenceHidden | source/value.c:295-303 | such a difference can be hidden: 0 * ((2147483647 + 1) / 2) is 0 either way |
| Folding.FoldedDivisionIff | source/value.c:295-303 | a folded division whose operands' own divisions agree: the code computes the 32-bit value of the tree as written exactly when the condition of DivisionAgreesIff holds |
| Bits.MaskIsMod | source/intern.c:65 | masking with a power of two less one gives the remainder |
| Bits.ClearMask | include/my_arena_allocator.h:160 | masking with the complement takes the remainder away |
| Bits.Pow2Test | include/my_arena_allocator.h:150 | `a & (a - 1)` is 0 exactly for powers of two |
| Intern.FreeSlot | source/intern.c:61-67 | below the load bound a slot is free, so every walk ends |
| Intern.PutSound | source/intern.c:44-52 | an entry placed in the first free slot of its walk keeps every walk unbroken |
| Intern.FreeMeansNew | source/intern.c:69-79 | a walk that ends at a free slot belongs to a string that is not in the table |
| Intern.HitIff | source/intern.c:80-84 | an entry that passes the test has the bytes asked for exactly when the walk was not intercepted |
| Intern.InternTable.Search | source/intern.c:65-87 | the walk ends at a free slot or at the first entry that passes the test |
| Intern.InternTable.Grow | source/intern.c:35-56 | a table twice as large with the same strings under the same pointers |
| Intern.InternTable.InternStr | source/intern.c:58-88 | earlier pointers stay; a new pointer only for new bytes; the result has the bytes asked for when they come from outside or are a whole interned string, and otherwise exactly when the pointer comparison did not stop the walk, which a caller can see beforehand when the table does not grow |
| Intern.Run | source/intern.c:58-88 | over any sequence of calls with strings from outside or earlier results, two results are the same pointer exactly when the bytes are equal, and pointers stay valid across growth |
| Intern.EmptyPrefixOfR | source/intern.c:80 | on a new table, under the source's hash function, interning "r" and then the empty prefix of the result gives the pointer to "r" again |
| TokenStream.BetweenPush | source/token_stream.c:144-156 | a token added to a window that is not full overwrites none that is unread |
| TokenStream.Source.TokensScheduled | source/token_stream.c:332-344 | numbering the steps of the scan, the tokens of the file are those of exactly the steps that have one, in order, up to the first step that ends |
| TokenStream.Source.FaultySteps | source/token_stream.c:332-344 | an error is found exactly when one of those steps reports one |
| TokenStream.Source.ScheduleExists | source/token_stream.c:332-344 | every file has such a list of steps |
| TokenStream.Stream.RemainingScheduled | source/token_stream.c:368-409 | what is not yet read are the tokens of the steps that are left |
| TokenStream.Stream.ScanLexeme | source/token_stream.c:334-339 | one step of the scan keeps the window and what is left to scan the remaining tokens |
| TokenStream.Stream.StartScanning | source/token_stream.c:332-344 | the window is full or the end was reached; the process ends exactly when an error was reported |
| TokenStream.Stream.Peek | source/token_stream.c:368-378 | the token of the next listed step, TK_EOF when there is none |
| TokenStream.Stream.PeekNext | source/token_stream.c:380-394 | the token of the listed step after that, TK_EOF when there is none |
| TokenStream.Stream.Advance | source/token_stream.c:396-409 | takes the token of the next listed step; the window stays sound exactly when there was one or the end had been seen |
| TokenStream.AdvanceAtEnd | source/token_stream.c:396-409 | advancing a new stream on a file without tokens moves the read cursor one past the write cursor |
| Parser.Parser.Advance | source/parse.c:77-83 | the guarded advance never reads past the end |
| Parser.Parser.Run | source/parse.c:60-83 | any interleaving of peek, peek_next and advance sees what it would see with the tokens of all steps lexed first |
| Grammar.FirstToken | source/parse.c:475-507 | every expression starts with a token that has a prefix rule |
| Grammar.ParseSound | source/parse.c:514-557 | what is accepted is a tree of the grammar that flattens to exactly the consumed tokens |
| Grammar.ClimbSound | source/parse.c:532-554 | the loop builds left-associative, stratified trees |
| Grammar.ParseComplete | source/parse.c:514-557 | on the tokens of a tree of the grammar climbing arrives at that tree |
| Grammar.ArgsComplete | source/parse.c:671-693 | an argument list is read back, with or without a comma after the last argument |
| Grammar.ParseIffDerives | source/parse.c:514-557 | climbing returns a tree exactly when the grammar derives it and nothing that follows continues it |
| Grammar.Unambiguous | source/parse.c:475-507 | no two trees of the grammar have the same tokens |
| Nodes.EraseForgets | source/parse.c:171-248 | a node records everything but the brackets of `cast[]` and commas |
| Nodes.ListingErase | source/parse.c:171-248 | the node of a tree lists the tree's tokens from left to right, apart from the brackets of `cast[]` and trailing commas, and has the tree's shape |
| Nodes.TidyFlatten | source/parse.c:229-248 | those tokens are found in any text of a tree by looking at their neighbours only |
| Nodes.ListingUnique | source/parse.c:514-557 | no two layered nodes list the same tokens |
| Parser.Parser.ParsePrecedence | source/parse.c:514-557 | the node and the tokens left are those of the climbing, and an error where it has none |
| Parser.Parser.Binary | source/parse.c:171-193 | the right operand is parsed one level higher |
| Parser.Parser.FieldAccess | source/parse.c:195-211 | a name must follow the dot |
| Parser.Parser.Unary | source/parse.c:213-227 | the operand is parsed at the level of prefixes |
| Parser.Parser.CastTarget | source/parse.c:233-238 | what stands between the brackets of a cast, if anything |
| Parser.Parser.CastForm | source/parse.c:229-248 | the three forms of a cast |
| Parser.Parser.DistinctForm | source/parse.c:250-261 | the operand is parsed at the level of prefixes |
| Parser.Parser.Grouping | source/parse.c:355-366 | a whole expression up to the closing parenthesis |
| Parser.Parser.FuncCall | source/parse.c:671-700 | the arguments up to the closing parenthesis, in order |
| Parser.Parser.Expr | source/parse.c:559-562 | a layered node that lists exactly the tokens consumed, apart from the brackets of `cast[]` and trailing commas, and the longest there is; or a syntax error when no expression stands there |
| Arena.AlignUpIsNext | include/my_arena_allocator.h:159-161 | for a power of two the aligned address is the first multiple not below |
| Arena.BumpValid | include/my_arena_allocator.h:170 | room above `current` of the last block has not been handed out |
| Arena.HandedOutOwned | include/my_arena_allocator.h:130-144 | an allocation of some size is owned by a block, and ends before its `current` |
| Arena.CopyPreserves | include/my_arena_allocator.h:196-198 | up to `current` the copy does not overlap its source, and it carries over what the old allocation held |
| Arena.Arena.AppendBlock | include/my_arena_allocator.h:83-113 | a new last block with at least the payload asked for |
| Arena.Arena.Reserve | include/my_arena_allocator.h:152-168 | the first aligned address with room in the last block; a block is appended exactly when the last one has no room at any aligned address |
| Arena.Arena.Allocate | include/my_arena_allocator.h:146-172 | aligned, inside one block's payload, and apart from everything handed out before; in the last block at the first aligned address whenever that has room |
| Arena.Arena.FindOwner | include/my_arena_allocator.h:130-144 | the block whose payload has the pointer, exactly when there is one |
| Arena.Arena.Reallocate | include/my_arena_allocator.h:181-201 | NULL exactly for a foreign pointer; otherwise a new allocation with at least the smaller size's bytes of the old one, and no other byte changes |
| Arena.Run | include/my_arena_allocator.h:146-201 | over any run of requests all results are aligned, held by a block and apart, and resized ones start with the old bytes |
| Arena.HonestExists | include/my_arena_allocator.h:83-113 | a child allocator that hands out only fresh memory exists |

## Left out

- Analysis.Analyze: declarations are `const`, without a type and with an initialiser; types, structs, functions, local scopes, `var` and evaluation from inside a function body are not modelled, the texts of reports are reduced to what they are about, and their places to a node.
- Analysis.Analyzer.AnalyzeNode: unary minus is not modelled; the source neither checks it for overflow nor keeps the type of its operand for 0 (`source/analysis.c:401-407`).
- Folding.Folder.Analyze: operands are `int` variables and constants; other widths, casts, floats and unary operators are not modelled, and reports are one flag.
- Folding.FoldingPreserves: goes from the divisions to the tree only; a tree with a division that disagrees can still agree (`DifferenceHidden`), and for such a tree only its topmost division is characterised (`FoldedDivisionIff`).
- Folding.Folder.AnalyzeIdent: the scope is a map that is read; that looking a global up may analyse it first is the part of `Analysis`.
- Parser.Parser.Expr: the tokens `{`, `struct`, `return` and `do`, and so struct types, struct literals and blocks, do not occur; source locations and the texts of errors are not kept.
- Parser.Parser.FieldAccess: `source/parse.c:199` calls `_match` without the terminating argument, which reads beyond the arguments when no name follows; the model reports the error of the line after it.
- TokenStream.Stream.ScanLexeme: the characters of a lexeme are not modelled; a scan step is a function that ends or moves on, which `source/token_stream.c:137-142` does not do for a `//` comment without a newline before the end of the file.
- TokenStream.Stream.StartScanning: the cursors do not wrap round at 2^64 on their own, and error messages are not modelled.
- HashTable.Table.Put: keys are compared by value, capacities do not overflow, and the single memory block that holds the three arrays is modelled as three arrays.
- HashTable.Table.Resize: freeing the old block is not modelled.
- Path.JoinAndNormalizeMultiple: the output buffer does not alias an input, counters do not overflow, and Windows style, extensions, base names and guessing the style are not modelled.
- Intern.InternTable.InternStr: the copies are numbered instead of placed in memory, so a pointer into the middle of a copy cannot be passed.
- Intern.Run: calls with a proper prefix of an interned string under its own pointer are not part of a run; `InternStr` has one such call.
- Arena.Arena.Allocate: addresses are unbounded, the child allocator does not fail, and `total_size` and freeing are not modelled.
- Arena.Arena.Reallocate: the headers of the blocks are not part of the modelled memory, so that no other byte changes is said of payloads only; for an owned pointer above `current` the size wraps round and the copy may overlap its source, which `memcpy` leaves undefined, and the model copies as if it did not.
- Arith.ArithInt: the result's type (`source/value.c:306-310`) and floating point arithmetic are not modelled.
- LLVM itself, file reading, options, printing, the JSON dump, the stream formatter, UTF-8 and the chunked and managed arrays are not modelled.
