# FlexPlan and bf4: a verified model of the core

FlexPlan plans a live update of a P4 program: it loads new versions of program components next to
the old ones, step by step, without running out of switch resources.  It sits on bf4, a P4
compiler derived from p4c.  This project models the parts of both whose behaviour is hardest to see
from the code, and proves what they promise.

| file | models |
|---|---|
| `Common.dfy` | what several modules share |
| `Words.dfy`, `BitSets.dfy` | 64-bit words as numbers below 2^64, and the set of bits that a list of words stands for |
| `BitVec.dfy` | the growing bit vector `bitvec`, in its one-word and its buffer form |
| `BitRange.dfy` | `bitranges`, the iterator over runs of set bits |
| `UpdatePlan.dfy` | the checks that the synthesizer emits for an update plan, with their wrap-around arithmetic |
| `SuffixSet.dfy`, `Aliases.dfy`, `SymbolIds.dfy`, `SymbolTable.dfy` | the P4Runtime symbol table: aliases from a counting trie of name suffixes, and ids from explicit requests and hashing with linear probing |
| `TableEntries.dfy` | the translation of `const entries` of a P4 table into P4Runtime entries |
| `Blocks.dfy` | the worklist over evaluated blocks |
| `Modifier.dfy` | `Modifier::apply_visitor` with its `ChangeTracker`: memoised rewriting of a shared graph |
| `PassManager.dfy` | the pass loop with backtracking |
| `IRVectors.dfy` | `Vector::visit_children` and `IndexedVector` with its index by name |
| `Printer.dfy` | the precedence-driven debug printer for expressions |
| `JsonString.dfy` | JSON escaping and the string lexer |

Objects that the source updates in place are classes with the same fields, loops are loops, and each
method is tied to a function on values about which the theorems are stated.  Reference definitions
are independent of the code: plain set algebra for bit vectors, exact integer sums for plans, "the
first matching entry" for tables, the unfolding of a graph for the modifier, a timeline without a
stack for the pass loop, a precedence-climbing reader for the printer.

`dafny verify dfyconfig.toml` checks the whole project.

Six things one would expect of the source do not hold as stated.  Each has a lemma with a failing
input and a lemma with the exact condition, told by what a caller has in hand.

- Aliases of distinct symbols are distinct as lists of components, but not always as text: empty
  components in front vanish (`EmptyComponentCollision`).  Two aliases are the same text exactly when
  one symbol ends in empty components followed by the whole other symbol, and is exactly that or the
  only stored symbol that ends so (`SameAliasText`).
- Printing an expression is not injective once negative constants occur, because the sign is the
  token of unary minus and escapes into the surrounding postfix expression (`NegativeCollides`).  The
  exact condition depends on the level: `PrintAlike` for operands, `BasesAlike` in front of a
  postfix, `StatementsAlike` for statements.
- Looking a name up in an `IndexedVector` is a linear search, but not for every sequence of operations:
  erasing one of two declarations of a name makes the index forget the other, which has been reported
  as an error by then (`DuplicateForgotten`).  From any state in which the two agree, `EraseAgrees`,
  `InsertAgrees` and `ReplaceAgrees` say exactly when they agree afterwards; appending never breaks
  the agreement, duplicates included (`AppendAgrees`).
- REAL is exact for every state of an accepted plan once the state has been measured, but can wrap
  below zero on the way, because components are accounted for one by one (`RunningRealWraps`).
  `NeverUnderflowsExactly` says for which states it does not, and `NeverWrapsAnywhere` for which
  resource files it never does.
- Splitting a transition never lowers the exact least slack, but it can lower the emitted DIFF of a plan
  that does not fit (`NegativeSlackFalls`).  It does so exactly when the split transition has negative
  slack and a half of it has slack below DIFF that is not negative (`SplittingLowersDiff`).
- The test for LPM masks accepts a mask wider than the field that is no prefix (`OversizedMask`).  A
  match written for a masked key means what the key means exactly when the mask lies within the
  field (`LpmMeansExactly`), which the type checker ensures.

The comment on `ChangeTracker::result` says that an intermediate result is returned between `start`
and `finish`; in the code it is the original node until `finish`, and the model follows the code.

## Model

| member | source | states |
|---|---|---|
| BitVecs.BitVec.constructor | bf4/lib/bitvec.h:146 | a new vector is the empty set |
| BitVecs.BitVec.FromWord | bf4/lib/bitvec.h:147 | a vector made from a word is the set of the word's bits |
| BitVecs.BitVec.Range | bf4/lib/bitvec.h:157 | a vector made from a range is exactly that interval |
| BitVecs.BitVec.Copy | bf4/lib/bitvec.h:158-163 | a copy has the same words, and so the same set, in storage of its own |
| BitVecs.RoundUp | bf4/lib/bitvec.h:455-462 | rounding a size up by adding a mask and clearing it never loses a word |
| BitVecs.BitVec.Expand | bf4/lib/bitvec.h:453-476 | growing keeps the set, from either form |
| BitVecs.BitVec.SetBit | bf4/lib/bitvec.h:182-188 | the set gains exactly that index |
| BitVecs.BitVec.SetRange | bf4/lib/bitvec.h:189-204 | the set gains exactly the interval, inside a word and across words |
| BitVecs.BitVec.ClrBit | bf4/lib/bitvec.h:238-244 | the set loses exactly that index |
| BitVecs.BitVec.ClrRange | bf4/lib/bitvec.h:245-265 | the set loses exactly the interval, also when the range runs past the end or idx + sz would not fit |
| BitVecs.BitVec.GetBit | bf4/lib/bitvec.h:266-267 | membership |
| BitVecs.BitVec.GetRange | bf4/lib/bitvec.h:268-282 | the number whose binary digits are the members, zero past the end |
| BitVecs.BitVec.PutRange | bf4/lib/bitvec.h:283-301 | the interval is replaced by the low digits of the value and nothing else changes |
| BitVecs.ReadAfterWrite | bf4/lib/bitvec.h:268-301 | reading back a written range gives the value modulo 2^width; every other bit is unchanged |
| BitVecs.BitVec.Next | bf4/lib/bitvec.h:85-99 | the least member above the position, or -1 when there is none |
| BitVecs.BitVec.Prev | bf4/lib/bitvec.h:100-114 | the greatest member below the position, or -1 |
| BitVecs.BitVec.Ffs | bf4/lib/bitvec.cpp:107-123 | the least member from the start on, or -1 |
| BitVecs.BitVec.Ffz | bf4/lib/bitvec.cpp:125-140 | the least non-member from the start on; the search ends |
| BitVecs.BitVec.Empty | bf4/lib/bitvec.h:316-319 | true exactly for the empty set |
| BitVecs.BitVec.IntersectWith | bf4/lib/bitvec.h:321-342 | intersection, for all sizes and forms; the result says whether the set changed |
| BitVecs.BitVec.Intersection | bf4/lib/bitvec.h:343-347 | intersection in a new vector, copying the shorter operand |
| BitVecs.BitVec.UnionWith | bf4/lib/bitvec.h:348-362 | union; the result says whether the set changed |
| BitVecs.BitVec.Union | bf4/lib/bitvec.h:372-373 | union in a new vector |
| BitVecs.BitVec.XorWith | bf4/lib/bitvec.h:379-388 | symmetric difference |
| BitVecs.BitVec.SubtractAll | bf4/lib/bitvec.h:391-407 | difference; the result says whether the set changed |
| BitVecs.BitVec.Difference | bf4/lib/bitvec.h:408-409 | difference in a new vector |
| BitSets.UnionWords | bf4/lib/bitvec.h:348-362 | word-wise or is union, and a word changes exactly when the set does |
| BitSets.SymmetricDifferenceWords | bf4/lib/bitvec.h:379-388 | word-wise exclusive or is symmetric difference |
| BitSets.IntersectionWords | bf4/lib/bitvec.h:321-342 | word-wise and with a zeroed tail is intersection |
| BitSets.DifferenceWords | bf4/lib/bitvec.h:391-407 | word-wise and-not is difference |
| BitSets.WordsFromElems | bf4/lib/bitvec.h:410-413 | equal sets have equal words, up to zero words at the end |
| BitVecs.BitVec.Equals | bf4/lib/bitvec.h:410-413 | equality of the sets, whatever the sizes |
| BitVecs.BitVec.Less | bf4/lib/bitvec.h:415-420 | numeric order of the sets read as binary numbers |
| BitVecs.LessAtAnyWidth | bf4/lib/bitvec.h:415-420 | that order does not depend on the width at which the numbers are read |
| BitVecs.BitVec.Intersects | bf4/lib/bitvec.h:424-427 | true exactly when a common member exists |
| BitVecs.BitVec.Contains | bf4/lib/bitvec.h:428-433 | true exactly when the other set is a subset |
| BitVecs.BitVec.ShiftRightBy | bf4/lib/bitvec.cpp:38-60 | every bit moves down by the count across word borders; a buffer shrinks to its last non-zero word, or to one word |
| BitVecs.BitVec.ShiftLeftBy | bf4/lib/bitvec.cpp:62-78 | every bit moves up by the count, growing first where needed |
| BitVecs.BitVec.ShiftedRightBy | bf4/lib/bitvec.h:436 | the same in a new vector |
| BitVecs.BitVec.ShiftedLeftBy | bf4/lib/bitvec.h:437 | the same in a new vector |
| BitVecs.BitVec.Count | bf4/lib/bitvec.h:440-449 | the number of members |
| BitSets.PopCountCounts | bf4/lib/bitvec.h:440-449 | the ones of a word are as many as the members it contributes |
| BitVecs.BitVec.IsContiguous | bf4/lib/bitvec.cpp:142-147 | true exactly when the set is a non-empty interval |
| BitVecs.IntervalBySize | bf4/lib/bitvec.cpp:142-147 | greatest minus least plus one equals the size exactly for intervals |
| BitVecs.BitVec.RotateRightHelper | bf4/lib/bitvec.cpp:149-158 | the rotated section, masked to the range |
| BitVecs.BitVec.RotateRight | bf4/lib/bitvec.cpp:166-170 | in place, the same set as the copying form |
| BitVecs.BitVec.RotateRightCopy | bf4/lib/bitvec.cpp:172-177 | the rotated set in a new vector |
| BitVecs.RotatedAt | bf4/lib/bitvec.cpp:149-177 | inside the range each bit comes from the position one rotation further, cyclically; outside nothing changes |
| BitVecs.RotatedSize | bf4/lib/bitvec.cpp:149-177 | rotation keeps the number of members |
| BitRanges.Iter.constructor | bf4/lib/bitrange.h:41 | starts at the first run, or at the end for the empty set |
| BitRanges.Iter.Advance | bf4/lib/bitrange.h:31-37 | steps to the next maximal run, or becomes invalid |
| BitRanges.Runs | bf4/lib/bitrange.h:23-49 | iterating yields exactly the maximal runs, ascending, never adjacent, together the whole set |
| BitRanges.OneMoreRun | bf4/lib/bitrange.h:31-37 | appending the next run keeps the list exact up to its end |
| UpdatePlan.Measure | synthesizer/synthesizer_spec.py:181-189 | the emitted sums equal the exact sums modulo 2^32 and 2^8, and REAL passes through the running values |
| UpdatePlan.LeastSlack | synthesizer/synthesizer_spec.py:235-247 | DIFF is the least of the cap and the wrapped slacks of all transitions |
| UpdatePlan.TransitionsOk | synthesizer/synthesizer_spec.py:261-325 | the emitted comparisons, each over all transitions |
| UpdatePlan.NothingUndone | synthesizer/synthesizer_spec.py:297-316 | no component goes back to its old version |
| UpdatePlan.Run | synthesizer/synthesizer_spec.py:154-350 | when the sums fit, `bug()` is reached exactly for the feasible plans |
| UpdatePlan.TransitionExact | synthesizer/synthesizer_spec.py:272-320 | for one transition, the wrapped comparison holds exactly when the slack is not negative, and the wrapped slack is the slack |
| UpdatePlan.ProgressExact | synthesizer/synthesizer_spec.py:306-307 | the wrapped change counter test holds exactly when something changes or everything has |
| UpdatePlan.HeadroomHolds | synthesizer/synthesizer_spec.py:181-232 | along accepted transitions the settled REAL of every state, which the checks compare, is the exact headroom and not negative |
| UpdatePlan.NeverWrapsExactly | synthesizer/synthesizer_spec.py:225-232 | every value REAL takes while a state is measured is exact exactly when the headroom after each component fits the field |
| UpdatePlan.NeverUnderflowsExactly | synthesizer/synthesizer_spec.py:225-232 | when the sums fit, that is exactly when no initial part of the components takes more than the constraint and what that part frees |
| UpdatePlan.NeverWrapsAnywhere | synthesizer/synthesizer_spec.py:225-232 | from the resource file alone: REAL stays exact in every state exactly when the constraint covers the growth of all components that grow |
| UpdatePlan.RunningRealWraps | synthesizer/synthesizer_spec.py:225-232 | an accepted plan whose sums fit, in whose last state REAL wraps while it is measured |
| UpdatePlan.AcceptedMeansFeasible | synthesizer/synthesizer_spec.py:261-350 | the wrapping checks accept exactly the plans that grow, progress and keep strictly positive headroom in unbounded integers |
| UpdatePlan.AcceptedInFull | synthesizer/synthesizer_spec.py:261-350 | the same written out on the components and the sums of each transition |
| UpdatePlan.WrappedSumAccepted | synthesizer/synthesizer_spec.py:181-189 | without the bound on the sums an infeasible plan is accepted: two versions of 2^31 units add up to zero |
| UpdatePlan.DiffIsLeastSlack | synthesizer/synthesizer_spec.py:235-247 | for an accepted plan DIFF bounds every slack from below and, uncapped, is the least one; constraint minus DIFF is then the peak usage |
| UpdatePlan.DiffCapped | synthesizer/synthesizer_spec.py:235-247 | for an accepted plan DIFF is the least slack, cut off at 1000000 |
| UpdatePlan.SlackIsPeak | synthesizer/interpret.py:82-87 | constraint minus the least slack is the highest usage above the starting one that any transition reaches |
| UpdatePlan.SplittingHelps | synthesizer/synthesizer_spec.py:235-247 | for any plan, splitting a transition through an intermediate changed set never lowers the exact least slack, nor raises the peak |
| UpdatePlan.SplittingRaisesDiff | synthesizer/synthesizer_spec.py:235-350 | splitting a transition of a growing plan without negative slacks never lowers the emitted DIFF; an accepted plan stays accepted exactly when the new state progresses |
| UpdatePlan.SplittingLowersDiff | synthesizer/synthesizer_spec.py:235-247 | for any plan whose sums fit: the emitted DIFF falls exactly when the split transition has negative slack and a half of it has slack between zero and DIFF |
| UpdatePlan.NegativeSlackFalls | synthesizer/synthesizer_spec.py:235-247 | a plan whose DIFF falls from the cap to 2 when a transition that does not fit is split |
| UpdatePlan.WrappedSlackIs | synthesizer/synthesizer_spec.py:235-247 | the emitted slack is the exact slack modulo 2^32, for any two states |
| UpdatePlan.RunSplit | synthesizer/synthesizer_spec.py:154-350 | the same on the emitted programs: if the plan reaches `bug()`, the split plan has at least its DIFF and reaches `bug()` exactly when the new state progresses |
| UpdatePlan.SplittingKeepsFeasible | synthesizer/synthesizer_spec.py:261-350 | splitting a transition of a feasible plan leaves it feasible exactly when the new state progresses on both sides or everything is changed |
| SuffixSets.JoinSplit | bf4/control-plane/p4RuntimeSerializer.cpp:253-255 | joining the components of a symbol gives the symbol back |
| SuffixSets.SplitJoin | bf4/control-plane/p4RuntimeSerializer.cpp:253-255 | splitting undoes joining, for components without dots |
| SuffixSets.P4SymbolSuffixSet.constructor | bf4/control-plane/p4RuntimeSerializer.cpp:324-335 | the empty trie is exact |
| SuffixSets.P4SymbolSuffixSet.InsertPath | bf4/control-plane/p4RuntimeSerializer.cpp:265-272 | every prefix of the reversed path gets a node and is counted once more; nothing else changes |
| SuffixSets.P4SymbolSuffixSet.AddSymbol | bf4/control-plane/p4RuntimeSerializer.cpp:237-273 | after any adds a node exists exactly for the suffixes of stored symbols and counts the symbols that have it |
| SuffixSets.SharingGrows | bf4/control-plane/p4RuntimeSerializer.cpp:237-273 | a new symbol adds one to the sharers of exactly its own suffixes |
| SuffixSets.P4SymbolSuffixSet.CountNeeded | bf4/control-plane/p4RuntimeSerializer.cpp:285-299 | as many trailing components as tell the symbol apart, and no more |
| SuffixSets.P4SymbolSuffixSet.ShortestUniqueSuffix | bf4/control-plane/p4RuntimeSerializer.cpp:275-312 | the serialised last components of the symbol, as many as are needed |
| SuffixSets.AliasShortest | bf4/control-plane/p4RuntimeSerializer.cpp:285-299 | every shorter non-empty suffix is shared with another symbol; a proper suffix that was chosen is not |
| SuffixSets.AliasesDistinct | bf4/control-plane/p4RuntimeSerializer.cpp:285-299 | the chosen paths of distinct symbols differ |
| SuffixSets.ChosenDistinct | bf4/control-plane/p4RuntimeSerializer.cpp:275-312 | as lists of components, the aliases of distinct symbols differ |
| SuffixSets.AliasTexts | bf4/control-plane/p4RuntimeSerializer.cpp:301-311 | as text they coincide exactly when the chosen components differ in leading empty components only; never when no component is empty |
| Aliases.SameAliasText | bf4/control-plane/p4RuntimeSerializer.cpp:275-312 | on the stored symbols: two aliases are the same text exactly when one symbol ends in empty components followed by all of the other, and is exactly that or the only symbol that ends so |
| Aliases.ChosenRunsPast | bf4/control-plane/p4RuntimeSerializer.cpp:285-299 | a chosen path that is another chosen path followed by empty components has run past the whole of that symbol |
| Aliases.RunsPastChosen | bf4/control-plane/p4RuntimeSerializer.cpp:285-299 | and a path that runs past another symbol that way is chosen so |
| SuffixSets.SerializedAlike | bf4/control-plane/p4RuntimeSerializer.cpp:304-309 | two serialisations agree exactly when the lists agree without their leading empty components |
| SuffixSets.EmptyComponentCollision | bf4/control-plane/p4RuntimeSerializer.cpp:304-309 | ".a" and "a" get the same alias |
| SuffixSets.Serialize | bf4/control-plane/p4RuntimeSerializer.cpp:304-309 | the loop computes the serialisation |
| SymbolIds.ConstructedFields | bf4/control-plane/p4RuntimeSerializer.cpp:470-472 | an id fits 32 bits; its top byte is the low byte of the type, the next is zero, the rest the low 16 bits of the value |
| SymbolIds.ProbeForId | bf4/control-plane/p4RuntimeSerializer.cpp:495-507 | the first free id in cyclic order of the low 16 bits; fails exactly when all 65536 are taken; terminates |
| SymbolIds.FreeIsNear | bf4/control-plane/p4RuntimeSerializer.cpp:495-507 | a free id is found within 65536 steps although the counter has 32 bits |
| SymbolIds.AddAllUnique | bf4/control-plane/p4RuntimeSerializer.cpp:376-385 | after any adds the non-zero ids are distinct and recorded as taken |
| SymbolIds.AddAllHas | bf4/control-plane/p4RuntimeSerializer.cpp:376-385 | the table holds exactly the added types and names |
| SymbolIds.LessIs | bf4/lib/cstring.h:190-191 | names are ordered by the first character in which they differ, or by their end |
| SymbolIds.FirstAddDecides | bf4/control-plane/p4RuntimeSerializer.cpp:376-385 | later adds of the same type and name change nothing |
| SymbolIds.AssignNamesUnique | bf4/control-plane/p4RuntimeSerializer.cpp:442-483 | assigning the missing ids of a type keeps all ids distinct, and each new id carries the type and a zero byte |
| SymbolIds.AssignNamesProbes | bf4/control-plane/p4RuntimeSerializer.cpp:442-483 | within a type each name gets the first slot from its hash on that is not taken before nor given to a smaller name |
| SymbolIds.ComputeKindsSettles | bf4/control-plane/p4RuntimeSerializer.cpp:363-364 | over all types: ids stay distinct, existing ones are kept, missing ones are generated |
| SymbolIds.CreateSettles | bf4/control-plane/p4RuntimeSerializer.cpp:355-367 | if no probe is exhausted, every added symbol has a non-zero id, all ids are distinct across types and names, accepted explicit ids are kept |
| SymbolIds.CreateProbes | bf4/control-plane/p4RuntimeSerializer.cpp:355-507 | every generated id is the first slot from the hash of the name on that is no accepted explicit id and not the id of a symbol of a smaller type, or of the same type and with a smaller name |
| SymbolIds.HashDecides | bf4/control-plane/p4RuntimeSerializer.cpp:465-472 | the id is made of the type and the hash when nothing else claims that slot |
| SymbolIds.ConsistentResult | bf4/control-plane/p4RuntimeSerializer.cpp:376-385 | with consistent explicit ids every add gets the id it asks for |
| SymbolIds.OrderIndependent | bf4/control-plane/p4RuntimeSerializer.cpp:355-483 | with consistent explicit ids, two add sequences with the same calls in any order give the same final table |
| SymbolTables.P4RuntimeSymbolTable.TryToAssignId | bf4/control-plane/p4RuntimeSerializer.cpp:421-435 | the id asked for if it is free, else the invalid id; taken ids are recorded |
| SymbolTables.P4RuntimeSymbolTable.Add | bf4/control-plane/p4RuntimeSerializer.cpp:376-385 | one step of the add function; the suffix set holds exactly the names |
| SymbolTables.P4RuntimeSymbolTable.ComputeIdsForSymbols | bf4/control-plane/p4RuntimeSerializer.cpp:442-483 | ids for the unassigned names in name order, each probed from the hash of the name, stopping at the first exhausted probe |
| SymbolTables.P4RuntimeSymbolTable.ComputeAllIds | bf4/control-plane/p4RuntimeSerializer.cpp:363-364 | the same for all types in order |
| SymbolTables.P4RuntimeSymbolTable.GetId | bf4/control-plane/p4RuntimeSerializer.cpp:394-404 | the id of a symbol that was added |
| SymbolTables.P4RuntimeSymbolTable.GetAlias | bf4/control-plane/p4RuntimeSerializer.cpp:410-412 | the shortest telling suffix among all names of the table |
| SymbolTables.CreateTable | bf4/control-plane/p4RuntimeSerializer.cpp:355-367 | the whole construction equals the pure account of it |
| TableEntries.DecodeEncode | bf4/control-plane/p4RuntimeSerializer.cpp:1649-1653 | padded big-endian bytes read back as the number |
| TableEntries.ReprRoundTrip | bf4/control-plane/p4RuntimeSerializer.cpp:1631-1654 | a number is written exactly when it is not negative and fits a positive width, reads back as itself, and takes the bytes of the width |
| TableEntries.PrefixMask | bf4/control-plane/p4RuntimeSerializer.cpp:1527-1536 | trailing zeros plus ones equal to the width leave a contiguous prefix |
| TableEntries.PrefixMaskBack | bf4/control-plane/p4RuntimeSerializer.cpp:1527-1536 | and every contiguous prefix passes that test |
| TableEntries.LpmMaskAccepted | bf4/control-plane/p4RuntimeSerializer.cpp:1527-1544 | within the width, the test accepts exactly the prefix masks, the empty one included |
| TableEntries.PrefixMatch | bf4/control-plane/p4RuntimeSerializer.cpp:1537-1556 | under a prefix mask, equal masked values are equal prefixes |
| TableEntries.ExactConverts | bf4/control-plane/p4RuntimeSerializer.cpp:1505-1514 | an exact match is written for an exact field and means what the key means |
| TableEntries.LpmConverts | bf4/control-plane/p4RuntimeSerializer.cpp:1516-1557 | an LPM match, or its omission, means what the key means |
| TableEntries.TernaryConverts | bf4/control-plane/p4RuntimeSerializer.cpp:1559-1591 | a ternary match, or its omission, means what the key means |
| TableEntries.RangeConverts | bf4/control-plane/p4RuntimeSerializer.cpp:1593-1622 | a range match, or its omission, means what the key means |
| TableEntries.FieldAccepted | bf4/control-plane/p4RuntimeSerializer.cpp:1505-1654 | a well-typed key is translated without error exactly when its match kind can express it |
| TableEntries.SkippedExactly | bf4/control-plane/p4RuntimeSerializer.cpp:1516-1622 | a field is left out of the message exactly when its key matches every value of the field |
| TableEntries.ConvertedCanonical | bf4/control-plane/p4RuntimeSerializer.cpp:1537-1556 | bits that a match does not look at are zero in its value |
| TableEntries.OversizedMask | bf4/control-plane/p4RuntimeSerializer.cpp:1527-1536 | a mask wider than the field passes the test and changes the meaning |
| TableEntries.LpmMeansExactly | bf4/control-plane/p4RuntimeSerializer.cpp:1516-1557 | a match written for a masked LPM key means what the key means on every field value exactly when the mask lies within the field |
| TableEntries.IgnoredPrefixBit | bf4/control-plane/p4RuntimeSerializer.cpp:1527-1536 | a mask that passes the test with a bit beyond the field ignores a bit of the prefix |
| TableEntries.ConvertOne | bf4/control-plane/p4RuntimeSerializer.cpp:1447-1459 | one field: written exactly for expressible keys, as a match of the field's own kind and size with zeros where it does not look, meaning the same on every field value; left out exactly when the key matches every value |
| TableEntries.AddMatchKey | bf4/control-plane/p4RuntimeSerializer.cpp:1435-1461 | all fields of an entry: error-free exactly for expressible keys; at most one match for each field, in order, of the field's kind and size, missing exactly for keys that match everything; the two meanings agree on every key value |
| TableEntries.AddTableEntries | bf4/control-plane/p4RuntimeSerializer.cpp:1343-1394 | for a table with a ternary or range key, the highest-priority matching P4Runtime entry is exactly the first matching P4 entry; every message has the kinds of the fields |
| TableEntries.FirstIsBest | bf4/control-plane/p4RuntimeSerializer.cpp:1354-1371 | priorities that count down make the first match the best one, and only that one |
| Blocks.ForAllEvaluatedBlocks | bf4/control-plane/p4RuntimeArchHandler.h:216-239 | on any finite graph, cycles included, calls the function on exactly the reachable blocks, once each, and ends |
| Blocks.ClosedHoldsPath | bf4/control-plane/p4RuntimeArchHandler.h:216-239 | a set closed under edges holds everything on a path that starts in it |
| Modifiers.SpellsUnique | bf4/ir/visitor.cpp:236-262 | an address unfolds to one tree only |
| Modifiers.RebuiltSpells | bf4/ir/visitor.cpp:245-256 | a clone over finished children unfolds to the rewritten tree, and equals the original exactly when nothing below changes |
| Modifiers.Modifier.ForwardChildren | bf4/ir/visitor.cpp:225-234 | children that are done are replaced by their results, others are kept |
| Modifiers.Modifier.Start | bf4/ir/visitor.cpp:42-55 | a node not seen before is marked in progress; all invariants are kept |
| Modifiers.Modifier.Begin | bf4/ir/visitor.cpp:244-249 | start, clone and forwarding: children that are done are results, the others are the original ones |
| Modifiers.ClosesFinished | bf4/ir/visitor.cpp:70-88 | finishing a node keeps every finished node finished, and finishes it |
| Modifiers.Modifier.Finish | bf4/ir/visitor.cpp:70-88 | the clone becomes the result exactly when it differs, and is then marked as visited itself |
| Modifiers.Modifier.VisitChildren | bf4/ir/visitor.cpp:252 | afterwards every child of the clone is the result of the original child |
| Modifiers.Modifier.ApplyVisitor | bf4/ir/visitor.cpp:236-262 | returns the result recorded for the node; records only grow; only nodes below are finished |
| Modifiers.Apply | bf4/ir/visitor.cpp:236-262 | the result unfolds to the plain recursive map of the input's unfolding, the original address comes back exactly when nothing changes, each node below the root is rewritten once and no other node is |
| Modifiers.MapTreePreorder | bf4/ir/visitor.cpp:236-262 | the recursive map keeps the shape of a tree and applies the function once to every tag |
| Modifiers.SharedResult | bf4/ir/visitor.cpp:114-129 | nodes that share a result have equal rewritten unfoldings |
| PassManagers.PassReturned | bf4/ir/pass_manager.cpp:42-47 | a pass that returns extends the timeline and keeps the invariant on stack and log |
| PassManagers.PassPushed | bf4/ir/pass_manager.cpp:35-37 | saving a snapshot keeps positions on the stack in order and tied to the timeline |
| PassManagers.PassResumed | bf4/ir/pass_manager.cpp:51-66 | resuming cuts the timeline back to the snapshot, strictly before the pass that threw |
| PassManagers.Unwind | bf4/ir/pass_manager.cpp:53-62 | pops to the topmost earlier snapshot whose pass agrees; none that was skipped agrees |
| PassManagers.UnwindFindsLatest | bf4/ir/pass_manager.cpp:53-62 | that is the latest earlier backtracking pass that agrees |
| PassManagers.Catch | bf4/ir/pass_manager.cpp:51-66 | resumes there, or rethrows with nothing changed, as the reference run does |
| PassManagers.AfterPass | bf4/ir/pass_manager.cpp:45-71 | stops on errors with the input of the pass, on a missing program, or on early exit with the result of the pass, else goes on; as the reference run does |
| PassManagers.ApplyVisitor | bf4/ir/pass_manager.cpp:21-74 | every run equals the reference run without a stack; a completed run is the chain of each pass's last execution from the original program; the outcomes used, the log and the ending fit together |
| PassManagers.Turn | bf4/ir/pass_manager.cpp:33-71 | one turn of the loop: it goes on unless the outcome stops it, and then the outcome decides the ending |
| PassManagers.EndingsExactly | bf4/ir/pass_manager.cpp:45-71 | each ending exactly for the last outcome that brings it about: errors with `stop_on_error`, no program, early exit; without `stop_on_error` no run stops on errors |
| PassManagers.ErrorsStop | bf4/ir/pass_manager.cpp:45-46 | with `stop_on_error` the first application that reports errors is the last one, and its input is the result |
| IRVectors.Vector.VisitChildren | bf4/ir/ir-inline.h:42-71 | visiting in place ends with one piece for each original element, end to end: nothing for a deleted element, the new node, or the elements of the answered vector; deleting everything leaves the null elements, keeping everything changes nothing |
| IRVectors.Vector.SpreadOver | bf4/ir/ir-inline.h:53-63 | another kind of vector is laid out over freshly inserted null elements |
| IRVectors.PartialStep | bf4/ir/ir-inline.h:42-71 | one turn of the loop extends the visited part by what the element becomes |
| IRVectors.FlatMapPieces | bf4/ir/ir-inline.h:42-71 | the flat map written out piece by piece |
| IRVectors.DeletedOrKept | bf4/ir/ir-inline.h:45-48 | a visitor that deletes everything leaves the null elements, one that keeps everything leaves the vector |
| IRVectors.LookupIsSearch | bf4/ir/indexed_vector.h:89-93 | with an exact index, looking a name up is a linear search |
| IRVectors.InsertAgrees | bf4/ir/indexed_vector.h:42-51 | from a state in which lookup and search agree, inserting keeps them in agreement exactly when no declaration comes to stand in front of a different one of its name |
| IRVectors.EraseAgrees | bf4/ir/indexed_vector.h:52-62 | from such a state, erasing keeps them in agreement exactly when no other element declares the name; the name is always in the index |
| IRVectors.ReplaceAgrees | bf4/ir/indexed_vector.h:111-115 | replacing keeps them in agreement exactly when it leaves the right answer for the two names involved |
| IRVectors.AppendAgrees | bf4/ir/indexed_vector.h:135-136 | appending always keeps them in agreement, duplicates included |
| IRVectors.ExactAgrees | bf4/ir/indexed_vector.h:89-93 | an index that holds exactly the declarations agrees with the vector |
| IRVectors.DuplicateForgotten | bf4/ir/indexed_vector.h:42-62 | with two declarations of a name lookup and search agree; erasing the second makes the index forget the first |
| IRVectors.IndexedVector.GetDeclaration | bf4/ir/indexed_vector.h:89-93 | the result of a linear search, in every state in which index and vector agree |
| IRVectors.IndexedVector.InsertInMap | bf4/ir/indexed_vector.h:42-51 | a first declaration is recorded; a duplicate is reported and changes nothing |
| IRVectors.IndexedVector.RemoveFromMap | bf4/ir/indexed_vector.h:52-62 | the name of a declaration is dropped |
| IRVectors.IndexedVector.Erase | bf4/ir/indexed_vector.h:103-105 | the element and its name go; an exact index stays exact; agreement with a search is kept exactly when no other element declares the name |
| IRVectors.IndexedVector.Insert | bf4/ir/indexed_vector.h:119-121 | the element is inserted; the index stays exact unless a name is declared twice; agreement with a search is kept exactly when no declaration is put in front of a different one |
| IRVectors.IndexedVector.InsertRange | bf4/ir/indexed_vector.h:106-110 | the same for a range, index first |
| IRVectors.IndexedVector.Replace | bf4/ir/indexed_vector.h:111-115 | the element is overwritten, old name out, new name in; agreement with a search is kept exactly when the two names are answered right |
| IRVectors.IndexedVector.PushBack | bf4/ir/indexed_vector.h:135-136 | appended to vector and index; agreement with a search is always kept |
| IRVectors.IndexedVector.PopBack | bf4/ir/indexed_vector.h:137-142 | removed from vector and index; agreement with a search is kept exactly when no other element declares the name |
| IRVectors.IndexedVector.RemoveByName | bf4/ir/indexed_vector.h:125-134 | erases the first declaration of the name and its index entry if there is one, and says so; agreement with a search is kept exactly when no other element declares the name |
| IRVectors.IndexedVector.VisitChildren | bf4/ir/ir-inline.h:138-156 | the same pieces, or a bug exactly when a declaration to be taken out is not in the index; without two declarations of one name there is no bug and the index stays exact; keeping everything changes neither vector nor index |
| IRVectors.ReindexedExact | bf4/ir/ir-inline.h:138-156 | at every point of such a visit the index is exact |
| Printers.Stream.SetPrec | bf4/ir/dbprint.h:54-65 | writes the four precedence bits of the flag word and no others |
| Printers.Stream.UnBody | bf4/ir/dbprint-expression.cpp:39-47 | operator, operand at the prefix level, level restored |
| Printers.Stream.BinBody | bf4/ir/dbprint-expression.cpp:49-58 | operands at the operator's level and one above, level restored |
| Printers.Stream.MuxBody | bf4/ir/dbprint-expression.cpp:141-149 | condition, branches at their levels, level restored |
| Printers.Stream.MemberBody | bf4/ir/dbprint-expression.cpp:96-100 | base at the postfix level, level restored |
| Printers.Stream.IndexBody | bf4/ir/dbprint-expression.cpp:160-165 | base at the postfix level, index at the lowest, level restored |
| Printers.Stream.Dbprint | bf4/ir/dbprint-expression.cpp:39-165 | appends what the expression prints at the level found, and leaves the whole flag word as it was |
| Printers.BinPrints | bf4/ir/dbprint-expression.cpp:49-58 | without the numbers of the table: to the left of an operator what binds less tightly is enclosed in parentheses, to the right what does not bind more tightly, in the order multiplication, addition, shift, and, exclusive or, or, comparison, equality, logical and, logical or |
| Printers.OperandPrints | bf4/ir/dbprint-expression.cpp:39-47 | under a unary operator binary operators and conditionals are enclosed, in front of a postfix also unary ones; an index never is |
| Printers.MuxPrints | bf4/ir/dbprint-expression.cpp:141-149 | of a conditional only a condition that is a conditional itself is enclosed |
| Printers.TopPrints | bf4/ir/dbprint-expression.cpp:39-165 | a statement gets a separator unless it is a constant; at the lowest level nothing is enclosed |
| Printers.PrintReads | bf4/ir/dbprint-expression.cpp:39-165 | a precedence-climbing reader gets through any printed expression, whatever follows that cannot extend it |
| Printers.ReadsBack | bf4/ir/dbprint-expression.cpp:39-165 | reading printed output gives the expression back, at every level |
| Printers.Injective | bf4/ir/dbprint-expression.cpp:39-165 | equal output at equal level means equal expressions, for expressions without negative constants |
| Printers.SeenPrints | bf4/ir/dbprint-expression.cpp:79-100 | an expression with negative constants prints like one with unary minus around the enclosing postfix chain |
| Printers.PrintAlike | bf4/ir/dbprint-expression.cpp:39-165 | at the levels of operands, branches and indices two expressions print alike exactly when a reader sees the same |
| Printers.BasesAlike | bf4/ir/dbprint-expression.cpp:96-100 | in front of a postfix they print alike exactly when both or neither carry the sign of a constant and a reader sees the same behind it |
| Printers.StatementsAlike | bf4/ir/dbprint-expression.cpp:39-165 | at statement level the same, and a constant is never taken for another expression |
| Printers.SeenUnchanged | bf4/ir/dbprint-expression.cpp:79-83 | a reader sees the expression itself exactly when it has no negative constant |
| Printers.NegativeCollides | bf4/ir/dbprint-expression.cpp:79-100 | a negative constant, and a member of one, print like negated expressions |
| JsonStrings.EscapeJson | bf4/lib/cstring.cpp:233-242 | the loop computes the escaped text |
| JsonStrings.EscapedSize | bf4/lib/cstring.cpp:233-242 | one backslash is added for each quote and backslash and nothing else; text without them is left alone |
| JsonStrings.UnescapeEscaped | bf4/lib/cstring.cpp:233-242 | unescaping undoes escaping |
| JsonStrings.EscapedInjective | bf4/lib/cstring.cpp:233-242 | escaping is injective |
| JsonStrings.ReadString | bf4/ir/json_parser.cpp:165-178 | stops at the first quote after an even number of backslashes and returns the text before it |
| JsonStrings.EscapedEven | bf4/lib/cstring.cpp:233-242 | escaped text ends in an even number of backslashes |
| JsonStrings.EscapedHidesQuotes | bf4/lib/cstring.cpp:233-242 | no quote inside escaped text closes it, whatever follows |
| JsonStrings.EscapedIsOneToken | bf4/ir/json_parser.cpp:165-178 | the first closing quote is the one after the escaped text |
| JsonStrings.WriteThenRead | bf4/ir/json_parser.cpp:165-178 | writing and reading a string gives the escaped text and leaves the rest of the input |

## Left out

- BitVecs.BitVec.SetRange: requires idx + sz below 2^64, because the sum is a 64-bit number in the source: past it the sum wraps, and the source writes a wrong range or outside the buffer.
- BitVecs.BitVec.PutRange: requires idx + sz below 2^64, for the same reason.
- BitVecs.BitVec.ClrRange: requires fewer than 2^56 words, because size times 64 is a 64-bit number in the source and more words could not be stored.
- BitVecs.BitVec.ShiftLeftBy: a shift of a one-word vector by 64 or more, reached for the empty set only, is taken to leave zero, where C++ leaves the shift undefined; the word offset and the position of the maximum are not cut to a 32-bit int.
- BitVecs.BitVec.Range: requires lo + cnt below 2^64, as SetRange does.
- BitVecs.BitVec.Ffs: bit indices are not cut to 32 bits, as the source's unsigned would; the same holds for Ffz.
- BitVecs.BitVec.Next: positions are not cut to the 32-bit int that the source keeps them in.
- BitVecs.BitVec.Prev: positions are not cut to the 32-bit int that the source keeps them in.
- BitVecs.BitVec.ShiftRightBy: the word offset is not cut to the 32-bit int that the source keeps it in.
- BitVecs.BitVec.RotateRightHelper: the two shift counts are not cut to the 32-bit int that the source keeps them in, so a rotation over 2^31 bits or more is right here and not there; the same holds for RotateRight and RotateRightCopy.
- `bitvec::getslice`, `setraw`, moves, printing of bit vectors and 32-bit words: not part of this model.
- SymbolIds.CreateSettles: symbol types are between 1 and 255, as the P4Runtime id prefixes are; an explicit id of 0 counts as unassigned, as in the source.
- The Jenkins hash is a parameter: the theorems hold for every hash function.
- TableEntries.FieldAccepted: LPM masks lie within the field width, as the type checker ensures; LpmMeansExactly says what happens otherwise.
- TableEntries.LpmConverts: the same; LpmMeansExactly shows that the bound is exact.
- Serializable enum members as keys, action parameters and match kinds of other architectures in `addTableEntries`: not part of this model; an action is an opaque value.
- UpdatePlan.Run: models the base mode; RESOURCE and CURR start at zero; the packet-level specification, diagnosis, evaluation and incremental modes are left out.
- Modifiers.Apply: visitDagOnce is set, preorder returns true and postorder rewrites the tag only; the graph is acyclic, since the source stops with a bug report on a loop; Transform, Inspector and visitor contexts are left out.
- Modifiers.Modifier.Finish: a clone has an address from the start but enters the store when it is kept, because nothing else can reach it before.
- IRVectors.IndexedVector.VisitChildren: the visitor answers with nodes of the element type or vectors of it; the source stops with a bug otherwise.
- IRVectors.IndexedVector.RemoveByName: no element is null, because the source would dereference it, and a declaration of the name is in the index, because the source stops with a bug otherwise.
- PassManagers.ApplyVisitor: passes are a list of outcomes with programs as opaque values; debug hooks, nested managers and memory logging are left out.
- Printers.Stream.Dbprint: output is a list of tokens and a path is one name; Slice, Range, Mask, Cast, calls, statements and types are left out.
- JsonStrings.ReadString: only the string case; whole JSON documents are left out because object keys are printed without quotes.
- The counterexample-guided loop, unsat-core learning, SMT and P4 text rewriting, the specification language and the table dependency analysis: driven by solver output or generated text that is not part of this model.
- Protobuf output, architecture handlers, error reporting, garbage collection and crash handling: library or input/output code.
