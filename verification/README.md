# VAST core: compressed bitmaps, query validation and the component registry

This project models four parts of VAST in Dafny and proves properties about the model.

- **Runs (`bits<T>`, module `Bits`).** A run is one machine word plus a length.
  - A run of at most W = 64 bits is a *literal*. Its low `size` bits are the bits it holds, and its padding is zero.
  - A longer run is a *fill*. Its word is all 0s or all 1s, and the run stands for `size` copies of that bit.
  - `Expand` gives the bits a run stands for. `Words` models the word primitives over a word as a sequence of W booleans: popcount, low-bit mask, all-or-none, count of trailing and leading zeros, word rank and select.
- **Bitmaps (module `Bitmaps`).** A bitmap is the sequence of runs that `bit_range` yields, and `Decode` gives its bits.
  - `append_bits(v, n)` and `append_block(w, n)` are specified by what they append.
- **Bitmap algorithms (module `BitmapAlgorithms`).** The two-cursor merge `bitmap_apply<FillLHS, FillRHS>` is an imperative method with loop invariants. So are its five operator instances and the bitmap-level `rank` and `select` loops.
  - Each is proved against a bit-level specification (`ApplySpec`, `Ranked`, `IsSelected`) over the decoded operands.
- **Query validation (module `Query`).** This covers:
  - operator negation;
  - constant folding of right-hand sides, where every expression operator is unimplemented and yields `ze::invalid`;
  - the validator's typing rules for tag, type, offset, event and negated clauses;
  - the event-clause rewrite;
  - `validate`, which stops at the first clause that fails.
- **Component registry (module `Tracker`).** The `tracker` actor's `put`, `get`, `link` and `at_down` handlers are methods of a class.
  - `actors_` is a key-sorted sequence of entries, which models the `std::map`.
  - `topology_` is a multiset of (source, sink) pairs, which models the `std::multimap`.
  - The class invariant is that keys stay sorted, every link joins two registered components of permitted types, and no link is recorded twice.

Where the code and its documentation disagree, the model follows the code:

- The run constructor's comment asks for `n < w`, but its assertion accepts `n <= width`. `Bits.Make` takes the assertion's `n <= W`, so an arbitrary word of exactly W bits is a valid run.
- `rank(bm, i)` replaces `i == 0` by the last position. So `rank(bm, 0)` counts the whole bitmap rather than position 0 (`BitmapAlgorithms.Ranked`).
- With one empty operand, `bitmap_apply` returns the other operand unchanged, whatever the operator. For example, `and` with an empty bitmap returns the non-empty one.
- `bitmap_nor` computes `x | ~y`, not `~(x | y)`, and `bitmap_nand` computes `x & ~y`.
  - The merge runs in whole words, so past the end of the shorter operand it combines with zero bits up to the next word boundary.
  - For and, or, xor and nand this agrees with the documented tail policy (`ApplyMatchesDocumented`). For nor it does not (`NorPastShorterOperand`).
- `negate` on an operator outside its ten cases trips an assertion in a debug build. In a release build it falls into the first case and returns `not_match`, and the model follows the release build.
- `folder::apply` also asserts before returning `ze::invalid`, and the model returns `ze::invalid`.
- The validator's overload for negated clauses reaches its operand through a const reference. An event clause has only an overload for a mutable one, so a negated event clause is handed to the overload for a whole clause, which dispatches on a copy of it again (`Query.ConstVisit`). The model's validator is defined only on clauses where it returns (`Query.Visitable`).

The merge needs an alignment precondition, `Input`:

- every fill holds a multiple of W bits;
- every literal except a bitmap's last holds exactly W bits.

Its mixed fill/literal step always consumes a whole word from the fill side, so the code relies on this shape without checking it.

## Model

| member | source | states |
|---|---|---|
| Bits.Make | libvast/vast/bits.hpp:19-32 | a run is built from any word when 0 < n <= W, or from an all-0/all-1 word for longer runs; a short run keeps exactly the n low bits of x (padding zeroed), a long one is n copies of the word's bit |
| Bits.FillBits | libvast/vast/bits.hpp:8-11 | every position of a run longer than a word holds the fill value (1 iff the word is all ones) |
| Bits.At | libvast/vast/bits.hpp:42-49 | operator[] with the width test the code intends returns exactly bit i of the run, for every i < size |
| Bits.AtAsWrittenMissesPositionW | libvast/vast/bits.hpp:48 | with the test `i > width` as written, position W of a fill of ones reads as 0 although the run holds 1 there |
| Bits.Homogeneous | libvast/vast/bits.hpp:51-57 | homogeneous() is true iff every bit of the run equals its first bit |
| Bits.CountOnes | libvast/vast/bits.hpp:59-65 | count() is the number of 1-bits among the run's bits and never exceeds its size |
| Bits.CountRun | libvast/vast/bits.hpp:61-65 | for a literal the popcount of the word is the run's count of 1s; for a fill it is the size when the word is all ones and 0 otherwise |
| Bits.FindFirst | libvast/vast/bits.hpp:67-79 | find_first as written: a result inside the run is the least position holding Bit; npos or a result past the end means no position holds Bit; looking for 1s, or on a run of at least W bits, it never lands past the end; looking for 0s in a literal shorter than a word it always answers, at most at the run's size, so exactly the size when the run holds no 0 |
| Bits.FindFirstInRun | libvast/vast/bits.hpp:67-79 | find_first as documented: the least position holding Bit, or npos exactly when no position does |
| Bits.FindFirstFalsePastEnd | libvast/vast/bits.hpp:73-78 | on the literal 11 of size 2, find_first looking for 0 returns 2, a position outside the run, instead of npos |
| Bits.FindNext | libvast/vast/bits.hpp:81-96 | find_next(i) is npos once i >= size-1; otherwise a result is above i, and inside the run it is the next position after i holding Bit, with none in between; npos or a result past the end means no such position; looking for 1s, or on a run of at least W bits, it never lands past the end; looking for 0s in a literal shorter than a word it answers at most the run's size |
| Bits.FindNextInLiteral | libvast/vast/bits.hpp:89-95 | the literal branch of find_next: clears bits 0..i, then the lowest remaining target bit is the next Bit-valued position after i; it stays inside a W-bit literal, and for 0s in a shorter literal it answers at most the literal's size |
| Bits.FindLast | libvast/vast/bits.hpp:98-109 | find_last as written: a result inside the run is the greatest position holding Bit; npos means none does; looking for 1s, or on a run of at least W bits, it never lands past the end; looking for 0s in a literal shorter than a word it answers W - 1 whatever the run holds |
| Bits.FindLastInRun | libvast/vast/bits.hpp:98-109 | find_last as documented: the greatest position holding Bit, or npos exactly when no position does |
| Bits.FindLastFalseInPadding | libvast/vast/bits.hpp:103-108 | on the literal of size 4 holding 1, 0, 1, 0 from position 0, find_last looking for 0 returns W-1 in the padding instead of 3 |
| Bits.Rank | libvast/vast/bits.hpp:118-135 | rank(b, i) is the number of Bit-valued positions in [0, i] |
| Bits.RankBoth | libvast/vast/bits.hpp:118-135 | rank<1>(i) and rank<0>(i) together count every position in [0, i], i + 1 of them |
| Bits.RankRun | libvast/vast/bits.hpp:129-134 | each branch of rank: on a fill the count is 0 or i+1; on a literal it is the word rank of the target word, and at i = W-1 its popcount |
| Bits.RankAll | libvast/vast/bits.hpp:137-144 | rank(b) = rank(b, size-1) counts the Bit-valued positions of the whole run |
| Bits.Select | libvast/vast/bits.hpp:146-161 | select(b, i): a result inside the run holds Bit and is the i-th such position; npos only when fewer than i positions hold Bit; whenever at least i positions hold Bit the result lies inside the run; when looking for 1s, or on a run of at least W bits, a result exists iff there are at least i and lies inside the run |
| Bits.SelectRun | libvast/vast/bits.hpp:157-160 | on a fill, a result exists iff the fill bit is Bit and then position i-1 is the i-th; on a literal the target word holds at least as many 1s as the run holds Bit |
| Bits.SelectLiteral | libvast/vast/bits.hpp:160 | the word-level select of the target word, when it lands inside a literal, is the i-th Bit-valued position, and it lands inside whenever the literal holds at least i of them |
| Bits.MaskBits | libvast/vast/bits.hpp:19-21 | mask(x, n) keeps bit j of x exactly when j < n |
| Words.CombineFills | libvast/vast/bitmap_algorithms.hpp:59-60 | any of the five operators applied to two all-0/all-1 words gives an all-0/all-1 word, all ones iff the operator holds on the two fill bits |
| Words.SelectIn | libvast/vast/bits.hpp:160 | word select: some position exists iff at least i bits hold b, and it holds b with exactly i such bits up to it |
| Words.SelectInPrefix | libvast/vast/bits.hpp:160 | when a prefix of the word already holds i bits equal to b, word select finds the i-th inside that prefix |
| Bitmaps.AppendBits | libvast/vast/bitmap_algorithms.hpp:61 | append_bits(v, n) appends n copies of v to the decoded bits, adds n to the size, and keeps runs valid and a word-aligned bitmap aligned |
| Bitmaps.AppendBlock | libvast/vast/bitmap_algorithms.hpp:69 | append_block(w, n) appends the n low bits of w, 0 < n <= W |
| Bitmaps.DecodePrefix | libvast/vast/bitmap_algorithms.hpp:171-181 | the runs before run k decode to the first Size(bm[..k]) bits of the bitmap |
| Bitmaps.DecodeAt | libvast/vast/bitmap_algorithms.hpp:171-181 | a position inside run k holds that run's bit at the offset of the position within the run |
| Bitmaps.AlignedInitSize | libvast/vast/bitmap_algorithms.hpp:70-79 | in an aligned bitmap the runs before the last one cover a multiple of W bits |
| BitmapAlgorithms.IsFill | libvast/vast/bitmap_algorithms.hpp:53-55 | is_fill holds iff the run is at least a word long and its word is all 0s or all 1s |
| BitmapAlgorithms.Apply | libvast/vast/bitmap_algorithms.hpp:29-122 | bitmap_apply: an empty operand yields the other operand; otherwise the result's bits are the operator on zero-extended operands up to the merge end, then the longer operand's remaining bits when its flag is set, then zeros up to the longer length; the result is again aligned |
| BitmapAlgorithms.Merge | libvast/vast/bitmap_algorithms.hpp:41-90 | the merge loop leaves the two cursors and residual counts consistent with the bits produced, and stops exactly at the merge end min(max, roundup(min)) |
| BitmapAlgorithms.MergeTurn | libvast/vast/bitmap_algorithms.hpp:56-90 | one turn of the loop keeps the merge invariant and strictly advances at least one cursor |
| BitmapAlgorithms.MergeBlock | libvast/vast/bitmap_algorithms.hpp:57-85 | the block of a turn extends the result by bits that agree with the specification and consumes matching counts from both residuals |
| BitmapAlgorithms.FillFillBlock | libvast/vast/bitmap_algorithms.hpp:57-63 | two fills: appends min(lhs_bits, rhs_bits) copies of the combined fill bit and takes that many from both residuals |
| BitmapAlgorithms.MixedBlock | libvast/vast/bitmap_algorithms.hpp:64-85 | a fill against a literal consumes one word from the fill and the whole literal residual; two literals produce max(lhs_bits, rhs_bits) bits of the masked words combined |
| BitmapAlgorithms.MoveCursor | libvast/vast/bitmap_algorithms.hpp:86-89 | a cursor whose residual is used up moves to the next run with that run's size as residual, otherwise it stays on its run |
| BitmapAlgorithms.FillFillStep | libvast/vast/bitmap_algorithms.hpp:57-63 | the fill/fill append agrees with the operator on both operands' bits and stays within the merge end |
| BitmapAlgorithms.MixedStep | libvast/vast/bitmap_algorithms.hpp:64-85 | the masked-word block of a mixed or literal step agrees with the operator on the zero-extended operands and stays within the merge end |
| BitmapAlgorithms.CopyLeftTail | libvast/vast/bitmap_algorithms.hpp:91-101 | with FillLHS set, the remaining runs of lhs are copied verbatim (fills by append_bits, literals by append_block) until lhs is exhausted; nothing is appended when rhs still has runs |
| BitmapAlgorithms.CopyRightTail | libvast/vast/bitmap_algorithms.hpp:102-112 | the same for rhs under FillRHS |
| BitmapAlgorithms.PadWithZeros | libvast/vast/bitmap_algorithms.hpp:113-121 | after the tails the result is no longer than max(len lhs, len rhs), and zero padding completes it to exactly the specified bits |
| BitmapAlgorithms.EmptyOperands | libvast/vast/bitmap_algorithms.hpp:34-39 | with an empty operand the specification is the other operand's bits, for every operator and flag pair |
| BitmapAlgorithms.Complete | libvast/vast/bitmap_algorithms.hpp:118-121 | a result of length max(len lhs, len rhs) that agrees with the specification at every position is the specification |
| BitmapAlgorithms.ApplyMatchesDocumented | libvast/vast/bitmap_algorithms.hpp:12-28 | when the operator on a zero bit passes the other bit through, the merge's specification equals the documented one: the operator on the common prefix, then the longer operand if its flag is set, else zeros |
| BitmapAlgorithms.InstancesPassThrough | libvast/vast/bitmap_algorithms.hpp:124-152 | and, or, xor and nand with their flags meet that condition; nor does not |
| BitmapAlgorithms.NorPastShorterOperand | libvast/vast/bitmap_algorithms.hpp:148-152 | for lhs 00 and rhs 0, nor yields 11 while the documented policy yields 10 |
| BitmapAlgorithms.BitmapAnd | libvast/vast/bitmap_algorithms.hpp:124-128 | bitmap_and is x AND y on the common prefix and zeros after it |
| BitmapAlgorithms.BitmapOr | libvast/vast/bitmap_algorithms.hpp:130-134 | bitmap_or is x OR y on the common prefix, then the longer operand |
| BitmapAlgorithms.BitmapXor | libvast/vast/bitmap_algorithms.hpp:136-140 | bitmap_xor is x XOR y on the common prefix, then the longer operand |
| BitmapAlgorithms.BitmapNand | libvast/vast/bitmap_algorithms.hpp:142-146 | bitmap_nand is x AND NOT y on the common prefix, then lhs if it is longer, zeros otherwise |
| BitmapAlgorithms.BitmapNor | libvast/vast/bitmap_algorithms.hpp:148-152 | bitmap_nor is x OR NOT y up to the merge end, then the longer operand; its length is max(len lhs, len rhs) |
| BitmapAlgorithms.LoopGuardInRange | libvast/vast/bitmap_algorithms.hpp:56 | the intended guard, which the model's merge loop uses, holds exactly while both cursors are inside their bitmaps |
| BitmapAlgorithms.LoopGuardAsWrittenReadsPastEnd | libvast/vast/bitmap_algorithms.hpp:56 | the guard as written, which compares rhs_begin with lhs_end, lets the loop run with rhs exhausted |
| BitmapAlgorithms.ScanStep | libvast/vast/bitmap_algorithms.hpp:171-181 | one run of the rank scan adds that run's Bit count to the accumulated count and its size to the offset |
| BitmapAlgorithms.ScanAll | libvast/vast/bitmap_algorithms.hpp:171-183 | after all runs the offset is the bitmap size and the count is the Bit count of the whole bitmap |
| BitmapAlgorithms.Rank | libvast/vast/bitmap_algorithms.hpp:154-184 | rank(bm, i), i < size: the number of Bit-valued positions in [0, i], with i = 0 standing for the last position |
| BitmapAlgorithms.RankLastRun | libvast/vast/bitmap_algorithms.hpp:174-179 | the adjustment in the run holding position i removes the count past i and leaves the rank |
| BitmapAlgorithms.RankFound | libvast/vast/bitmap_algorithms.hpp:176-178 | the subtraction never goes below zero and yields the count up to i |
| BitmapAlgorithms.PrefixOnes | libvast/vast/bitmap_algorithms.hpp:177 | bits{data, size}.count() is the number of 1s among the first size bits of the run |
| BitmapAlgorithms.Select | libvast/vast/bitmap_algorithms.hpp:186-212 | select(bm, i), i > 0: a position exists iff at least i positions hold Bit, and then it holds Bit with exactly i Bit-valued positions up to and including it; npos otherwise |
| BitmapAlgorithms.SelectInRun | libvast/vast/bitmap_algorithms.hpp:199-207 | in the run where the running count reaches i, the fill branch returns n + (i - cum - 1) and the literal scan returns n + j, and either is the i-th Bit-valued position |
| BitmapAlgorithms.FindInLiteral | libvast/vast/bitmap_algorithms.hpp:203-206 | the inner loop of select finds the m-th Bit-valued position of a literal |
| BitmapAlgorithms.SelectInFill | libvast/vast/bitmap_algorithms.hpp:201-202 | on a fill of Bit, the i-th occurrence overall is at n + (i - cum - 1) |
| Query.NegateInvolution | src/vast/detail/ast/query.cc:146-173 | negate maps each of the ten operators to a different one and negating twice gives the operator back |
| Query.NegateComplements | src/vast/detail/ast/query.cc:146-173 | the negated operator holds on a comparison exactly when the operator does not |
| Query.NegateUnlisted | src/vast/detail/ast/query.cc:150-153 | an operator outside the ten falls through to not_match, so for it negate is not an involution |
| Query.FoldOperandCases | src/vast/detail/ast/query.cc:12-87 | the folder yields the innermost value of a constant operand (a value, possibly in nested single-operand expressions) and ze::invalid for any operand that applies an operator |
| Query.FoldCases | src/vast/detail/ast/query.cc:175-188 | fold of an expression without steps is its folded first operand; with any step it is ze::invalid |
| Query.FoldExpression | src/vast/detail/ast/query.cc:175-188 | the loop of fold computes the folded first operand followed by every step in order |
| Query.FoldOperandValue | src/vast/detail/ast/query.cc:58-72 | the folder visitor: a value folds to itself, a unary expression applies its operator, a nested expression is folded |
| Query.Visit | src/vast/detail/ast/query.cc:92-143 | the verdict of the validator, and the clause it leaves: an event clause's names become its first name and "0", every other clause is unchanged; defined on the clauses the validator returns on |
| Query.ConstVisit | src/vast/detail/ast/query.cc:92-143 | the validator on a clause reached through a const reference, as a negated clause reaches its operand: within any bound on dispatches it returns exactly when no event clause sits under the negations, and then with the clause's verdict |
| Query.IntendedValid | src/vast/detail/ast/query.cc:140-143 | the verdict the negated-clause overload evidently intends, where an event clause validates however it is reached, agrees with the validator on every clause the validator returns on |
| Query.NegationsIntendedValid | src/vast/detail/ast/query.cc:140-143 | under the intended verdict, negations of any depth do not change a clause's verdict, event clauses included |
| Query.ValidTagIsConstant | src/vast/detail/ast/query.cc:97-107 | a valid tag clause has a constant right-hand side whose type fits the tag: name a string or regex, time a time point, id an unsigned integer |
| Query.TypeClauseNonConstant | src/vast/detail/ast/query.cc:109-122 | a type clause whose right-hand side applies an operator folds to the invalid type and is valid only if its own type is invalid |
| Query.NegationsValid | src/vast/detail/ast/query.cc:140-143 | a clause under any number of negations, one the validator returns on through a const reference, validates exactly when the clause does |
| Query.VisitIdempotent | src/vast/detail/ast/query.cc:130-138 | a visited clause can be visited again, and the second visit changes nothing |
| Query.Reached | src/vast/detail/ast/query.cc:190-200 | validate visits the clauses of the rest up to and including the first that fails, and none of them when the first clause fails |
| Query.VisitNext | src/vast/detail/ast/query.cc:195-197 | visiting clause k in place extends the visited prefix of the query by one clause |
| Query.Validate | src/vast/detail/ast/query.cc:190-200 | validate(q), on a query where every clause it reaches is one it returns on, is true iff the first clause and every clause of the rest validate; the query is left with exactly the clauses it reached visited |
| Query.ValidateRest | src/vast/detail/ast/query.cc:195-199 | the loop over the rest returns false at the first failing clause and true when all pass |
| Query.ValidateAt | src/vast/detail/ast/query.cc:196 | one turn of that loop visits clause i in place and returns its verdict |
| Tracker.ParseComponent | src/vast/actor/tracker.cc:64-78 | a type string names a component iff it is one of importer, exporter, receiver, archive, index, search |
| Tracker.BeforeTransitive | src/vast/actor/tracker.cc:80 | the key order of actors_ is transitive |
| Tracker.BeforeTotal | src/vast/actor/tracker.cc:80 | the key order of actors_ is total on distinct names |
| Tracker.FindSorted | src/vast/actor/tracker.cc:80 | in key-sorted entries, find of an entry's name returns that entry |
| Tracker.InsertSorted | src/vast/actor/tracker.cc:84 | emplace of a new name keeps actors_ sorted by key |
| Tracker.InsertLookup | src/vast/actor/tracker.cc:84 | after emplace the new name maps to its state and every other name to what it mapped to before |
| Tracker.UpdateLookup | src/vast/actor/tracker.cc:99 | overwriting a registered entry changes the mapping of that name only |
| Tracker.DownedKeeps | src/vast/actor/tracker.cc:22-42 | at_down keeps every name and type and the number of entries, and changes no entry other than the first holding the actor |
| Tracker.LinkVerdictOk | src/vast/actor/tracker.cc:142-164 | link accepts exactly importer to receiver and receiver or search to archive or index; any other source type is an invalid source |
| Tracker.LinksKept | src/vast/actor/tracker.cc:142-166 | links stay between permitted types whenever the types of registered names are kept |
| Tracker.Tracker.constructor | src/vast/actor/tracker.cc:11-20 | a new registry has no components and no links |
| Tracker.Tracker.Put | src/vast/actor/tracker.cc:61-104 | put: an unknown type is an invalid-type error; a new name is registered; a registered name of another type is a type mismatch, one with a live actor a duplicate; otherwise the actor is replaced and the type kept; only name's mapping can change, links never |
| Tracker.Tracker.Register | src/vast/actor/tracker.cc:80-85 | emplace of a new name: sorted insertion of the entry; other names and links unchanged |
| Tracker.Tracker.Reinstate | src/vast/actor/tracker.cc:98-99 | the registered entry gets the new actor and keeps its name and type; nothing else changes |
| Tracker.Tracker.Get | src/vast/actor/tracker.cc:105-112 | get returns the registered actor, possibly invalid_actor, or an unknown-actor error, and changes nothing |
| Tracker.Tracker.Link | src/vast/actor/tracker.cc:113-168 | link: unknown source, then unknown sink, are errors; an existing link is acknowledged and not added again; otherwise the verdict on the two types decides, and only on success is the link added |
| Tracker.Tracker.AddLink | src/vast/actor/tracker.cc:166 | the new link is added once and the registry invariant holds |
| Tracker.Tracker.AtDown | src/vast/actor/tracker.cc:22-42 | at_down invalidates the actor of the first entry in key order holding the downed actor; nothing is removed and links stay |

## Left out

- Messaging and lifecycle of the registry are not modelled:
  - `monitor(a)` in `put` and the `sync_send(...).await` in `link`, whose replies are only awaited;
  - the `identifier` handler and the spawning of the identifier;
  - `at_exit`, `attach_functor` and `name()`.
  Logging is left out as well.
- Tracker.Tracker.Link: the `equal_range` scan for an existing link is modelled as a membership test on the multiset, which answers the same question.
- Values are reduced to their type tag and an opaque payload. The value library and the query AST header are not part of this model.
- Query.Validate: the C++ function updates the query in place through a reference. The model returns the updated query instead, so aliasing of the query is not captured.
- Query.Validate: requires that every event clause validate reaches has at least two names. The C++ code writes `lhs[1]` without checking, which is undefined for a shorter list.
- Query.Visit, Query.Valid, Query.Validate: an event clause under a negation is not modelled, because the source does not evidently terminate on it. The operand is reached through a const reference, the event-clause overload takes only a mutable one, and the whole-clause overload dispatches on a copy again. Depending on how the clause variant is declared, the code may instead fail to compile. The grammar does allow the case: a unary operator may precede an event clause (src/vast/query/parser/query_definition.h:70-73). `Visitable` and `SafeToValidate` exclude it, and `ConstVisit` models the repeated dispatch.
- Query.NegationsValid: under at least one negation it requires a clause with no event clause under its negations, for the same reason.
- Debug-build assertions are not modelled. `negate` and `folder::apply` follow the release build. Elsewhere, an assertion's condition becomes a precondition:
  - the run constructor;
  - `rank`: i < size;
  - `select`: i > 0, and i <= size for runs.
- BitmapAlgorithms.Rank: the empty-bitmap check that follows `i < bm.size()` cannot be reached under that precondition, so the model has no branch for it.
- BitmapAlgorithms.Apply: requires the alignment shape `Input` described above. The C++ code does not check it, and the merge's mixed step is only correct under it. Unaligned operands are not modelled.
- The Bitmap container's storage, `bit_range`, and the implementations in `vast/word.hpp` are not part of this model. Their operations are specified by what they return or append. Machine words are sequences of W booleans, so the code's shift and mask arithmetic appears only through these specifications.
- Bits.FindFirst, Bits.FindNext, Bits.FindNextInLiteral, Bits.Select: looking for 0s in a literal shorter than a word searches the complemented word, whose padding is ones, so a result at or past the run's size is possible. FindFirst, FindNext and FindNextInLiteral then answer at most the size, and exactly the size when no position searched holds 0. Select's contract does not say which position past the end it returns, only what such a result means: fewer than i positions hold Bit. `FindLast` in that case always answers W - 1, which its contract states. On a W-bit literal and on a fill every result lies inside the run.
- Sizes and counts are unbounded naturals. The 64-bit `size_type` never wraps for bitmaps that fit in memory.

## Findings

| source | as written | input that shows it | evidently intended | confidence | as-written member | corrected member |
|---|---|---|---|---|---|---|
| libvast/vast/bits.hpp:48 | `i > width` selects the fill branch only above W, so position W of a fill is read through a single-bit mask of bit W, which is beyond the word | a fill of ones of size 2W, position W | `i >= width` | not executed | Bits.AtAsWrittenMissesPositionW | Bits.At |
| libvast/vast/bits.hpp:73-78 | `find_first<false>` complements the whole word, so a literal's zero padding becomes ones and is found | the literal 11 of size 2 gives 2, a position outside the run | npos when no position of the run holds 0 | not executed | Bits.FindFirstFalsePastEnd | Bits.FindFirstInRun |
| libvast/vast/bits.hpp:103-108 | `find_last<false>` counts leading zeros of the complemented word, whose padding is ones | the literal of size 4 holding 1, 0, 1, 0 from position 0 gives W-1 instead of 3 | the last position inside the run holding 0 | not executed | Bits.FindLastFalseInPadding | Bits.FindLastInRun |
| libvast/vast/bitmap_algorithms.hpp:56 | the loop guard compares `rhs_begin` with `lhs_end` | lhs of 3 runs and rhs of 1 run after one turn: rhs is exhausted and the guard still holds | `rhs_begin != rhs_end` | not executed | BitmapAlgorithms.LoopGuardAsWrittenReadsPastEnd | BitmapAlgorithms.LoopGuardInRange |
| src/vast/detail/ast/query.cc:140-143 | the negated-clause overload visits its operand through a const reference; a const event clause binds only to the whole-clause overload at lines 92-95, which copies it into a fresh clause and dispatches on it again | a negated event clause, which the grammar produces for a unary operator in front of an event clause | a negated clause validates as its operand does, and an event clause validates | not executed; depending on how the clause variant is declared, the code may instead fail to compile | Query.ConstVisit | Query.IntendedValid |
