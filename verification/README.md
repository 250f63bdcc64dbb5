# Verified model of the CO2 compiler's analyses and layouts

CO2 compiles a C dialect to Rust's MIR. This project models five parts of the compiler and proves what
they promise. Code that works step by step is a Dafny method or class, proved against a specification
function; what that function means is proved in lemmas.

1. **Moves and leaks** (`Bits`, `Measure`, `Flow`, `Mir`, `PointsTo`, `PointsToMeaning`, `PointsToSolve`, `Locations`,
   `Facts`, `PointUses`, `Emit`, `Collect`, `Rows`, `Borrowck`, `Analyze`, `Histories`, `Completeness`). The borrow checker numbers the program
   points, solves a points-to problem, emits events, and runs a worklist over three bit rows per block.
   `Flow` gives the independent reference: what a path through the graph does to one local. `PointsToMeaning` reads
   points-to sets off the assignments alone, as chains of pointers handed on along a walk; `PointUses` says of each
   point, from its operands and places, which locals it hands over, reads, borrows, assigns or may write through a
   pointer; `Histories` tells a path as the story of its points. In these terms `Completeness.Check` says that reports
   and leaks are exactly those the body's paths deserve, for every well-typed body. The worklist
   seeds only the entry block and queues a successor only when its state changed, so what it computes is first
   shown exact over the *awake* paths, on which some local is in some state at every block entered
   (`Analyze.Analyze`). In a typed body all paths are awake: taking an address makes a deeper pointer type, so
   nothing ever points at a local of the deepest type, and that local is never written through a pointer
   (`Completeness.SomeNeverWritten`). For event graphs that come from no body, `Flow.AwakeIsEnough` says exactly
   when awake paths account for all paths.
2. **Records and bit-fields** (`CTypes`, `Bitfields`, `RecordTable`, `BitfieldSafety`, `BitfieldPlacement`,
   `RecordBuilder`, `BitAccess`). The allocator that opens, shares, grows, closes and shrinks storage units is a class, refined to
   pure step functions. For every member list the compiler accepts, the table lists the named members as declared
   and each bit-field lies in its final storage, sharing no bits of that storage with another. `BitfieldPlacement` says
   where each member lands, as least positions and least widths. In a struct,
   bit-fields then read back what was written to them while the others stay put. In a union they all start at the
   same bit, and the law of what a store does to another field's value is proved instead.
3. **Constants and layouts** (`Wrap`, `ConstExpr`, `ConstLaws`, `ConstWrap`, `ConstMeaning`, `EnumEval`, `Layouts`,
   `LayoutLaws`, `LayoutRules`). Both constant evaluators, the memoised enumerator evaluator, `sizeof` and `offsetof`.
   `ConstMeaning` says in plain integers what each operator computes, in either evaluator.
4. **Names** (`Imports`, `ModuleTree`, `PathMeaning`, `Scopes`). The `use` policy, the lazily expanded module tree, and the
   scope walk.
5. **Smaller state machines** (`Spans`, `Dedup`, `DedupRules`, `Mangling`, `Specifiers`, `SpecifierRules`,
   `ArrayLength`).

Where the source's own comments and its code differ, the model follows the code:

- "Always byte-aligned" (`co2_crate_sig/src/struct_manager.rs:1124-1125`) does not hold of a storage unit's
  start: `BitfieldSafety.UnalignedUnit` is the counterexample, `BitfieldSafety.UnitStartAligned` the exact condition.
- "The local definitely holds a drop-needing value" (`co2_borrowck/src/check.rs:79`) describes a row that is
  joined by union: it means that some path ends with the local owned (`Analyze.OwnedExact`).

Where two parts of the source compute the same thing and differ, the exact condition is proved:

- The two constant evaluators cast alike to a type exactly when it is no ADT, or an enum whose payload comes down
  to a 32-bit `int` (`ConstLaws.CastsAgreeExactly`). To other ADTs the first refuses to cast and the second casts
  as to an `int`.
- The record builder's own layout function ignores packs, adds a union's members up and takes an enum for an `int`.
  `LayoutLaws.PackedStructAgrees`, `UnionAgrees` and `EnumAgrees` say exactly when that agrees with `sizeof`.

## Model

| member | source | states |
|---|---|---|
| Bits.SetBit | co2_borrowck/src/check.rs:493-495 | Setting a bit of a row of 64-bit words changes membership of that local alone and keeps every word in range |
| Bits.ClearBit | co2_borrowck/src/check.rs:497-499 | Clearing a bit changes membership of that local alone |
| Bits.OrDigits | co2_borrowck/src/check.rs:193-207 | `\|` on words is union, digit by digit |
| Bits.DifferingDigit | co2_borrowck/src/check.rs:193-197 | Words that differ differ in some digit, so a changed word means a gained or lost bit |
| Bits.OverlayDigits | co2_mir/src/operand.rs:320-388 | Replacing the low digits of a word takes those of the new value and leaves the rest |
| Rows.WordsFor | co2_borrowck/src/check.rs:107 | The number of words is the least that holds a bit per local |
| Rows.MarkMoved | co2_borrowck/src/check.rs:166-170 | A move sets uninit and moved, clears owned, of one local |
| Rows.MarkWritten | co2_borrowck/src/check.rs:172-175 | A pointer write clears uninit and moved of one local and leaves ownership |
| Rows.MarkAssigned | co2_borrowck/src/check.rs:176-180 | An assignment clears uninit and moved and sets owned of one local |
| Rows.JoinedRow | co2_borrowck/src/check.rs:193-197 | Joining words is set union, and some word changes exactly when a bit is gained |
| Rows.JoinRow | co2_borrowck/src/check.rs:193-197 | The loop over words joins the rows and reports a change exactly when a bit is new |
| Rows.Join | co2_borrowck/src/check.rs:191-207 | All three rows are joined; `changed` is true exactly when some bit of some local is new |
| Rows.SetsGrow | co2_borrowck/src/check.rs:208-210 | A new bit makes the rows strictly larger as sets: the step of the termination measure |
| Measure.TotalRoomLess | co2_borrowck/src/facts.rs:268-273 | Enlarging one entry lowers the number of elements missing from all entries together |
| Locations.PointsDistinct | co2_borrowck/src/facts.rs:59-82 | Points are numbered in program order, all distinct, and no start point is a mid point |
| Locations.PointsDense | co2_borrowck/src/facts.rs:59-82 | Points are numbered without gaps from 0: a start, its middle, the next start |
| Locations.LocationTable.constructor | co2_borrowck/src/facts.rs:60-74 | The table holds, for each block, twice the statements and terminators before it |
| Locations.LocationTable.StartIndex | co2_borrowck/src/facts.rs:76-78 | The table's start index is the location's start point |
| Locations.LocationTable.MidIndex | co2_borrowck/src/facts.rs:80-82 | The table's mid index is the location's mid point |
| Locations.LocationTable.ToLocation | co2_borrowck/src/facts.rs:84-93 | Inverts both numberings, for every location |
| PointsTo.Origin | co2_borrowck/src/facts.rs:228-252 | Every target a statement list leaves has one origin: one entry of the state before, or none of it |
| PointsTo.SourceCopies | co2_borrowck/src/facts.rs:228-252 | A statement copies one local's targets to `p`, or gives `p` the same targets whatever came before |
| PointsTo.MayPointStep | co2_borrowck/src/facts.rs:260-268 | What a block sends to a successor is left there by some walk, if what it received was |
| PointsToSolve.ApplyAssign | co2_borrowck/src/facts.rs:228-252 | Afterwards `q` is in `p`'s set exactly if the statement takes `q`'s address into `p`, hands on a local that had it, or leaves `p` alone |
| PointsToMeaning.TransferMeaning | co2_borrowck/src/facts.rs:228-252 | One statement on one set: an address taken, a whole local copied, cast or reborrowed, or nothing assigned |
| PointsToMeaning.AddressTaken | co2_borrowck/src/facts.rs:238-244 | After `p = &q`, `p` points at `q` and nothing else, and no other set changes |
| PointsToMeaning.ChainsExact | co2_borrowck/src/facts.rs:228-252 | After a list of statements `p` points at `q` exactly if a chain of locals leads from taking `q`'s address to `p`, each handed on before it was overwritten |
| PointsToSolve.RunStatements | co2_borrowck/src/facts.rs:262-266 | The statement loop composes the transfers |
| PointsToSolve.MergeInto | co2_borrowck/src/facts.rs:268-273 | Merging is pointwise union; the entry counts as changed exactly when it grew, and then less room is left |
| PointsToSolve.Initialize | co2_borrowck/src/facts.rs:255-260 | Every block starts with nothing known and is queued |
| PointsToSolve.Propagate | co2_borrowck/src/facts.rs:267-274 | After a turn every successor has what the block sent, nothing shrank, and whatever changed is queued |
| PointsToSolve.Turn | co2_borrowck/src/facts.rs:261-275 | A turn keeps entries justified by walks, keeps unqueued blocks settled, and makes progress |
| PointsToSolve.Covered | co2_borrowck/src/facts.rs:254-277 | Once all blocks are settled, what any walk leaves is in the entry of the block it ends at |
| PointsToSolve.Solve | co2_borrowck/src/facts.rs:254-277 | The worklist terminates for any graph with every entry justified and every block settled |
| PointsToSolve.ComputePointsTo | co2_borrowck/src/facts.rs:254-277 | `q` is in `p`'s set at a block's entry exactly when along some walk, started anywhere, the address of `q` was taken and handed on to `p` by copies, casts and reborrows, no link of the chain being overwritten in between |
| PointsToMeaning.TargetsMeaning | co2_borrowck/src/facts.rs:161-176 | The same at every statement of a block, not only at its entry |
| Facts.GraphValid | co2_borrowck/src/facts.rs:119-182 | Every event of a well-formed body names one of its locals, and every edge one of its blocks |
| PointUses.MovesMeaning | co2_borrowck/src/facts.rs:304-417 | A local is moved at a point exactly if a part of it is passed by `Move` there: assigned, cast, put into an aggregate, or given to a callee |
| PointUses.ReadsMeaning | co2_borrowck/src/facts.rs:304-417 | A local is accessed at a point exactly if an operand or an inspected place there is a part of it, or it is returned |
| PointUses.BorrowsMeaning | co2_borrowck/src/facts.rs:329-335 | A local is borrowed at a point exactly if the address of a part of it is taken there |
| PointUses.AssignsMeaning | co2_borrowck/src/facts.rs:287-291 | A local is assigned at a point exactly if a part of it is stored to there, by a statement, a call or inline assembly |
| PointUses.WritesMeaning | co2_borrowck/src/facts.rs:292-298 | A local is written through a pointer at a point exactly if a pointer that may point at it by some chain is stored through or given to a callee |
| Emit.FactsOutput.EmitStatement | co2_borrowck/src/facts.rs:279-302 | Adds exactly the statement's events at its point and moves the points-to state past it |
| Emit.FactsOutput.EmitRvalueUses | co2_borrowck/src/facts.rs:304-338 | Adds exactly the reads, moves and borrows of the value: moved is what is passed by `Move` from a direct place, accessed what an operand or inspected place names, borrowed what has its address taken |
| Emit.FactsOutput.EmitOperandRead | co2_borrowck/src/facts.rs:340-345 | An operand read accesses its place, a constant nothing |
| Emit.FactsOutput.EmitOperandUse | co2_borrowck/src/facts.rs:307-310 | A used operand is read, and moved if passed by move |
| Emit.FactsOutput.EmitOperandUses | co2_borrowck/src/facts.rs:318-323 | Every operand of an aggregate is used |
| Emit.FactsOutput.EmitBorrow | co2_borrowck/src/facts.rs:331-335 | Only a place without dereference is borrowed |
| Emit.FactsOutput.EmitAssigned | co2_borrowck/src/facts.rs:287-291 | Only a place without dereference is assigned |
| Emit.FactsOutput.EmitWrites | co2_borrowck/src/facts.rs:294-298 | Exactly the pointer's targets are written, whatever the order of the set |
| Emit.FactsOutput.EmitOperandMove | co2_borrowck/src/facts.rs:349-356 | Only a `Move` of a place without dereference moves a local |
| Emit.FactsOutput.EmitPlaceRead | co2_borrowck/src/facts.rs:358-362 | Only a place without dereference counts as an access |
| Emit.FactsOutput.EmitArguments | co2_borrowck/src/facts.rs:380-390 | Each argument is read, moved if passed by move, and lets the callee write what it points at |
| Emit.FactsOutput.EmitAsm | co2_borrowck/src/facts.rs:397-410 | Every input is read and every direct output assigned |
| Emit.FactsOutput.EmitTerminator | co2_borrowck/src/facts.rs:364-417 | Adds exactly the terminator's events, call by call, branch by branch; a call's destination then points nowhere known and nothing else changes |
| Emit.FactsOutput.EmitEntry | co2_borrowck/src/facts.rs:128-136 | At the entry's start point the arguments are assigned, all other locals moved, and nothing else happens |
| Emit.FactsOutput.constructor | co2_borrowck/src/facts.rs:120-124 | No facts to begin with |
| Emit.FactsOutput.EmitBlock | co2_borrowck/src/facts.rs:161-178 | One block's facts are recorded under its own points and no earlier point gains or loses any |
| Emit.GenerateFacts | co2_borrowck/src/facts.rs:119-182 | At every mid point the emitted facts are exactly that point's events, with the points-to state of the walks |
| Collect.Group | co2_borrowck/src/check.rs:90-105 | Facts of one kind end up under their points, all of them and nothing else; other kinds are untouched |
| Collect.CollectEvents | co2_borrowck/src/check.rs:90-105 | The event map lists, under each point, exactly the locals the five fact lists name there |
| Flow.PathCoherent | co2_borrowck/src/check.rs:282-286 | On every path, at every point: moved implies uninitialized, owned implies not uninitialized |
| Flow.RunBit | co2_borrowck/src/check.rs:160-187 | A bit after a run depends on that bit before it alone, and monotonically |
| Flow.UnwrittenAwake | co2_borrowck/src/check.rs:128-212 | If some local is never written through a pointer, the worklist follows every path |
| Flow.AwakeIsEnough | co2_borrowck/src/check.rs:128-212 | Awake paths account for all paths exactly when no unvisited reachable block would deliver anything new |
| Histories.RunMeaning | co2_borrowck/src/check.rs:160-187 | After a run a local is moved exactly if some point moved it and none since assigned or pointer-wrote it; owned exactly if some point assigned it and none since moved it |
| Histories.PointTold | co2_borrowck/src/check.rs:126-187 | The state a path brings to a point is the one its story tells: handed over and not restored, never initialized, or holding a value of its own |
| Histories.ArrivesTold | co2_borrowck/src/check.rs:126-160 | Some path of events arrives with a bit exactly when the story of some route through the body tells it |
| Borrowck.ArrivesOnAnyPath | co2_borrowck/src/check.rs:144-160 | With a never pointer-written local, arriving on an awake path and on any path are the same |
| Borrowck.VisitArrives | co2_borrowck/src/check.rs:129-160 | Every bit met during a visit, converged or not, has a path behind it |
| Borrowck.OutSound | co2_borrowck/src/check.rs:190-211 | What a visited block delivers to a successor has a path behind it |
| Borrowck.CoversAwake | co2_borrowck/src/check.rs:128-212 | Once every live block has delivered, each awake path's bits are in the entry it reaches |
| Analyze.RecordErrors | co2_borrowck/src/check.rs:144-160 | Adds exactly the reports the state before the point deserves, under that point |
| Analyze.CheckPoint | co2_borrowck/src/check.rs:140-160 | The reports of one point are on record afterwards, earlier ones stay, and each has a path that explains it |
| Analyze.ApplyMoves | co2_borrowck/src/check.rs:166-170 | The moved locals become uninitialized and moved, all others stay |
| Analyze.ApplyWrites | co2_borrowck/src/check.rs:172-175 | The written locals lose both bits and keep their ownership, all others stay |
| Analyze.ApplyAssigns | co2_borrowck/src/check.rs:176-181 | The assigned locals become owned and note this point, all others stay |
| Analyze.ApplyEvents | co2_borrowck/src/check.rs:166-181 | Moves, then pointer writes, then assignments, on every local at once; assignments are noted |
| Analyze.VisitPoint | co2_borrowck/src/check.rs:131-181 | One point takes every local's state by its events and notes who assigned it |
| Analyze.VisitBlock | co2_borrowck/src/check.rs:130-189 | One visit runs the block on all locals, records all reports it deserves, and only such as some path explains |
| Analyze.JoinInto | co2_borrowck/src/check.rs:191-210 | The successor's entry becomes the union; a reported change means a bit gained and less room |
| Analyze.Propagate | co2_borrowck/src/check.rs:190-211 | Every successor gets what the block delivers, entries only grow, and whatever changed is queued |
| Analyze.InitialRows | co2_borrowck/src/check.rs:112-121 | Arguments own their values, all other locals are uninitialized, nothing is moved |
| Analyze.Initialize | co2_borrowck/src/check.rs:107-128 | Before the first visit the invariant holds with only the entry block queued |
| Analyze.Turn | co2_borrowck/src/check.rs:129-212 | A turn keeps the worklist invariant and either gains a bit or shortens the list |
| Analyze.Solve | co2_borrowck/src/check.rs:126-212 | The worklist terminates for any graph, duplicate successors and self-edges included, and the invariant holds with nothing queued |
| Analyze.Converged | co2_borrowck/src/check.rs:128-212 | Live blocks are the visited ones, and a bit is in an entry state exactly when some awake path brings it there |
| Analyze.ReplayExact | co2_borrowck/src/check.rs:214-226 | Replaying a block from its converged entry shows a bit at a point exactly when some awake path arrives with it |
| Analyze.ErrorsExact | co2_borrowck/src/check.rs:126-160 | A local is reported at a point exactly when accessed there and arriving uninitialized, or borrowed there and arriving moved; as `Moved` exactly when it arrives moved |
| Analyze.CheckLeaks | co2_borrowck/src/check.rs:265-300 | One report, in local order, per drop-needing non-return local in the owned row, with its last noted assignment |
| Analyze.ReplayBlock | co2_borrowck/src/check.rs:226-253 | A return block replayed from its entry leaves every local as the block's events do |
| Analyze.OwnedExact | co2_borrowck/src/check.rs:214-254 | After the replay a local is owned exactly when some awake path to that return ends with it owned |
| Analyze.FindLeaks | co2_borrowck/src/check.rs:226-255 | Reported leaks are exactly the drop-needing locals some return leaves owned, each blamed on an assignment to it or on its declaration as an argument |
| Analyze.Analyze | co2_borrowck/src/check.rs:83-258 | From the fact lists: reports and leaks are exactly what the body's awake paths deserve |
| Completeness.ReportsOnAllPaths | co2_borrowck/src/check.rs:126-160 | For every typed body: a point is reported for a local exactly when some path deserves it, as `Moved` exactly when some path arrives with it moved |
| Completeness.LeaksOnAllPaths | co2_borrowck/src/check.rs:214-258 | For every typed body: the leaked locals are exactly those some path to a return leaves owned |
| Completeness.TargetsAvoid | co2_borrowck/src/facts.rs:228-277 | No points-to set at any point of a typed body contains a local of the deepest pointer type |
| Completeness.SomeNeverWritten | co2_borrowck/src/facts.rs:279-417 | Every typed body has a local that no point writes through a pointer |
| Completeness.Check | co2_borrowck/src/check.rs:28-41 | From a body alone: at a point a local is reported as moved exactly if it is read or borrowed there and was handed over on some route without being assigned or pointer-written since; reported at all exactly if it may moreover be read uninitialized; leaked exactly if some route to a return leaves it with a value |
| Completeness.UseAfterMove | co2_borrowck/src/check.rs:144-160 | In a reachable block, a use of a local after a statement that hands it over, with nothing between that assigns it or may write it, is reported as a use after move |
| CTypes.RoundUpBounds | co2_crate_sig/src/struct_manager.rs:1133-1135 | `round_up_bit` gives the least multiple not below its argument |
| Bitfields.SmallestUint | co2_crate_sig/src/struct_manager.rs:1137-1151 | The least integer width that covers the bits, none beyond 128 |
| RecordTable.StorageMatches | co2_crate_sig/src/struct_manager.rs:1164-1198 | The storage of a bit-field is as wide as its declared type and has its sign; only integers, `bool`, `char` and enums have one |
| RecordTable.AddOneTable | co2_crate_sig/src/struct_manager.rs:648-943 | Each named member adds its own entry, and no growing, closing or shrinking of storage changes another |
| RecordTable.FinishTable | co2_crate_sig/src/struct_manager.rs:946-1001 | Padding and the last shrink change no entry |
| RecordBuilder.Builder.EnsureStorage | co2_crate_sig/src/struct_manager.rs:1200-1278 | Shares the open unit if it has room; opens a new last storage of the declared type if there is no open unit, the position is a multiple of the declared width or the unit cannot be widened; else widens it to the least integer that reaches the end of the field, in field and table alike |
| RecordBuilder.Builder.constructor | co2_crate_sig/src/struct_manager.rs:629-640 | An empty record |
| RecordBuilder.Builder.RetypeLogical | co2_crate_sig/src/struct_manager.rs:1226-1249 | Patches the storage type of exactly the bit-fields of one storage, from a given entry on |
| RecordBuilder.Builder.EnterBitfield | co2_crate_sig/src/struct_manager.rs:815-837 | A named bit-field is entered with the open unit's type and counts for the alignment; an anonymous one leaves the table alone |
| RecordBuilder.Builder.FindCandidate | co2_crate_sig/src/struct_manager.rs:783-800 | The position a bit-field is tried at |
| RecordBuilder.Builder.AddAt | co2_crate_sig/src/struct_manager.rs:801-841 | Places a bit-field at a given position, sharing, growing or opening a unit |
| RecordBuilder.Builder.AddBitfield | co2_crate_sig/src/struct_manager.rs:719-841 | Zero-width, union and struct bit-fields each take their own branch |
| RecordBuilder.Builder.AddToStruct | co2_crate_sig/src/struct_manager.rs:779-841 | Places a bit-field of a struct and enters it in the table |
| RecordBuilder.Builder.AddToUnion | co2_crate_sig/src/struct_manager.rs:759-778 | Every bit-field of a union gets storage of its own at bit 0 |
| RecordBuilder.Builder.AddZeroWidth | co2_crate_sig/src/struct_manager.rs:739-757 | A zero-width field moves the cursor to its type's boundary, or back to 0 in a union |
| RecordBuilder.Builder.CloseStorage | co2_crate_sig/src/struct_manager.rs:843-896 | Closing shrinks the unit to the bits in use: bytes if anonymous, else the least integer, in field and table alike |
| RecordBuilder.Builder.FindAnonymous | co2_crate_sig/src/struct_manager.rs:858-864 | Whether no named bit-field lives in the storage |
| RecordBuilder.Builder.ShrinkStorage | co2_crate_sig/src/struct_manager.rs:871-891 | Narrows a unit to the least integer covering the used bits, in field and table alike |
| RecordBuilder.Builder.AddPlain | co2_crate_sig/src/struct_manager.rs:843-942 | A plain member closes the open unit and advances the cursor past it |
| RecordBuilder.Builder.AddMemberOrBitfield | co2_crate_sig/src/struct_manager.rs:719-941 | One member, bit-field or not |
| RecordBuilder.Builder.AddNext | co2_crate_sig/src/struct_manager.rs:648-941 | A member is checked and then added, or refused with its own error |
| RecordBuilder.Builder.AddMembers | co2_crate_sig/src/struct_manager.rs:648-943 | The loop ends with all members added, or with the first error |
| RecordBuilder.Builder.Pad | co2_crate_sig/src/struct_manager.rs:946-977 | A trailing zero-width field adds bytes exactly when the cursor is past what the fields take |
| RecordBuilder.Builder.ShrinkTrailing | co2_crate_sig/src/struct_manager.rs:979-1001 | The last open unit is shrunk in field and table |
| RecordBuilder.Builder.Align | co2_crate_sig/src/struct_manager.rs:1003-1036 | A zero-sized array restores a lost alignment, capped by the pack; a union and an empty record get none |
| RecordBuilder.Builder.DefineRecord | co2_crate_sig/src/struct_manager.rs:621-1045 | Accepts exactly the acceptable members (and representable alignments); what it accepts is safe, lists exactly the named members, and each member of a struct lands where the rules say |
| BitfieldSafety.EnsureInv | co2_crate_sig/src/struct_manager.rs:1200-1278 | Wherever a bit-field ends up, its unit has room for it past everything already there |
| BitfieldSafety.RetypeSafe | co2_crate_sig/src/struct_manager.rs:1226-1249 | Retyping a storage and patching its entries in the table keeps every bit-field inside it and the table in step |
| BitfieldSafety.AddOneInv | co2_crate_sig/src/struct_manager.rs:648-943 | Every member keeps the allocator's invariant: table and fields agree, bit-fields in bounds, in order, disjoint |
| BitfieldSafety.FinishSafe | co2_crate_sig/src/struct_manager.rs:946-1001 | Padding and the last shrink keep every bit-field inside its storage |
| BitfieldSafety.RecordSafe | co2_crate_sig/src/struct_manager.rs:621-1045 | In every accepted record: the table lists exactly the named members with their declared type, width and sign; each bit-field within its final storage, recorded types equal to emitted ones, bit-fields of one storage disjoint and increasing |
| BitfieldSafety.PhantomFits | co2_crate_sig/src/struct_manager.rs:1003-1036 | For every record the alignment field has an integer type to be made of, exactly when the pack is at most 2, is 4 or 8, or is at least 16 bytes |
| BitfieldSafety.OddPackPanics | co2_crate_sig/src/struct_manager.rs:1153-1162 | Under any other pack a one-bit field of a 128-bit type asks for an alignment no integer has |
| BitfieldSafety.PlacedWhole | co2_crate_sig/src/struct_manager.rs:783-800 | A bit-field shares the open unit or does not cross a multiple of its declared width |
| BitfieldSafety.UnitStartAligned | co2_crate_sig/src/struct_manager.rs:1121-1131 | A newly opened unit starts on a byte exactly when the cursor is on one or the field moved to its type's boundary |
| BitfieldSafety.UnalignedUnit | co2_crate_sig/src/struct_manager.rs:1124-1125 | `char x; char a:7; int b:3` opens a unit at bit 15 |
| BitfieldPlacement.BitfieldLands | co2_crate_sig/src/struct_manager.rs:779-841 | In every accepted struct: a bit-field is placed at the cursor if the open unit has room, else at the first position not straddling a multiple of its declared width; it then shares, opens or widens storage by exact conditions, earlier fields keep their types, and its entry is its distance from the unit |
| BitfieldPlacement.ZeroWidthLands | co2_crate_sig/src/struct_manager.rs:739-757 | A zero-width field moves the cursor to the first multiple of its declared width, and nothing else |
| BitfieldPlacement.UnionBitfieldLands | co2_crate_sig/src/struct_manager.rs:759-778 | Each bit-field of a union gets a storage of its declared width to itself and starts at bit 0 |
| BitfieldPlacement.PlainLands | co2_crate_sig/src/struct_manager.rs:843-942 | A plain member cuts the open unit down to the least integer, or the fewest bytes if anonymous, that holds the bits in use, and takes its size from the first multiple of its alignment on |
| BitfieldPlacement.AcceptedExactly | co2_crate_sig/src/struct_manager.rs:648-757 | All members are added exactly if each is acceptable: integral type, width that fits, no name at width zero, unsized only at the end of a struct |
| BitfieldPlacement.Finishes | co2_crate_sig/src/struct_manager.rs:946-1045 | Finishing adds the fewest bytes that reach the cursor after a trailing zero-width field, and cuts the last open unit down to the least integer |
| BitfieldPlacement.EmittedBytesMore | co2_crate_sig/src/struct_manager.rs:953-960 | What the fields take: each lies at the first multiple of its alignment after those before it |
| BitfieldPlacement.AlignmentRestored | co2_crate_sig/src/struct_manager.rs:1003-1036 | A zero-sized field is added exactly if no field has the alignment the members ask for, up to the pack, and it has that alignment |
| BitAccess.ExtractInserted | co2_mir/src/operand.rs:245-388 | Reading the bits just written gives the value's low bits |
| BitAccess.ExtractUntouched | co2_mir/src/operand.rs:320-388 | Writing one range of bits leaves a disjoint range alone |
| BitAccess.SignExtendValue | co2_mir/src/operand.rs:245-318 | Shifting up and down again reads the field as two's complement |
| BitAccess.LoadStored | co2_mir/src/operand.rs:245-417 | A bit-field reads back what was assigned to it, reduced to its width and sign |
| BitAccess.OthersUntouched | co2_mir/src/operand.rs:395-417 | In any accepted struct, assigning one bit-field changes no other member |
| BitAccess.StructFieldsIndependent | co2_mir/src/operand.rs:245-417 | In any accepted struct, bit-fields behave as separate variables |
| BitAccess.UnionAtBottom | co2_crate_sig/src/struct_manager.rs:760-778 | Every bit-field of an accepted union starts at bit 0 of its storage |
| BitAccess.StoreUnionReplaces | co2_mir/src/operand.rs:395-417 | Assigning a union's bit-field replaces as many low bits of the shared word as the field is wide, and no others |
| BitAccess.LoadUnionReads | co2_mir/src/operand.rs:245-318 | Reading a union's bit-field takes as many low bits of the shared word as the field is wide |
| BitAccess.UnionFieldsOverlay | co2_mir/src/operand.rs:245-417 | After storing field `j` of a union, field `k` reads `j`'s value below the width of `j` and its own old bits above |
| BitAccess.UnionFieldsInterfere | co2_crate_sig/src/struct_manager.rs:760-778 | Whatever a union holds, some value stored in one of its bit-fields changes any other |
| Wrap.ReduceEqual | co2_crate_sig/src/ty.rs:839-859 | Wrapping forgets exactly the multiples of the modulus |
| Wrap.OneInRange | co2_crate_sig/src/ty.rs:839-859 | A residue has one representative in a type's range |
| ConstLaws.CastsAgree | co2_hir/src/decl.rs:135-170 | The two casts agree, failures included, to every type that is no ADT and to enums over a 32-bit `int` |
| ConstLaws.BinariesAgree | co2_hir/src/decl.rs:1501-1591 | Converting inline and converting through helpers give the same value and the same failures, for every operator |
| ConstLaws.EvaluatorsAgree | co2_hir/src/decl.rs:1452-1603 | The two evaluators agree in value and success on every expression whose casts are all to such types |
| ConstLaws.CastsAgreeExactly | co2_crate_sig/src/ty.rs:1888-1942 | Casts to a type agree on all values exactly when it is no ADT, or an enum whose payload comes down to a 32-bit `int` |
| ConstWrap.EvalCongruent | co2_crate_sig/src/ty.rs:1294-1401 | Evaluation and exact arithmetic never drift apart modulo the type's width |
| ConstWrap.WrapOnce | co2_crate_sig/src/ty.rs:1294-1401 | Wrapping at every node gives what wrapping the exact result once gives, for any tree of one leaf type |
| ConstWrap.OverflowFree | co2_crate_sig/src/ty.rs:1309-1337 | +, - and * never report overflow in a type exactly when it has at most 32 bits, or 64 and is signed or the operator is not * |
| ConstWrap.EvaluatorOverflowFree | co2_crate_sig/src/ty.rs:1309-1400 | The evaluator itself never fails on +, - or * of that common type exactly when the type is such a one |
| ConstWrap.RoomySucceeds | co2_crate_sig/src/ty.rs:1306-1401 | In such a type a sum, difference or product has a value exactly when both operands have |
| ConstWrap.ValueOfItsType | co2_crate_sig/src/ty.rs:1581-1668 | The value of an arithmetic operation, comparison or connective is one its static type can represent |
| ConstWrap.CommonIsJoin | co2_crate_sig/src/ty.rs:795-836 | The common type is the join of one total order s8 < u8 < s16 < ... < u128 |
| ConstWrap.TypeIsLargestLeaf | co2_crate_sig/src/ty.rs:1633-1651 | An arithmetic tree has the largest of its leaves' types |
| ConstWrap.ShapeDoesNotMatter | co2_crate_sig/src/ty.rs:1633-1651 | Trees over the same leaf types have the same type |
| EnumEval.Evaluator.EvalLocalConst | co2_crate_sig/src/ty.rs:1732-1772 | The cache never changes an answer, keeps what it has, and takes in every enumerator it evaluates |
| EnumEval.Evaluator.EvalConstExpr | co2_crate_sig/src/ty.rs:1226-1413 | Evaluating through the cache gives the value of the cache-free definition |
| ConstMeaning.ComparisonMeaning | co2_crate_sig/src/ty.rs:1364-1387 | A comparison is 1 if the operands, brought into their common type, are so ordered, and otherwise 0 |
| ConstMeaning.ConnectiveMeaning | co2_crate_sig/src/ty.rs:1394-1395 | `&&` and `\|\|` ask whether their operands are zero, but need a value of both |
| ConstMeaning.UnaryMeaning | co2_crate_sig/src/ty.rs:1294-1305 | `!`, `~`, `-` and `+` on plain integers; a sign fails only where the negative does not fit |
| ConstMeaning.ConditionalMeaning | co2_crate_sig/src/ty.rs:1402-1413 | The branch not taken is not evaluated; a missing branch is the condition |
| ConstMeaning.RingMeaning | co2_crate_sig/src/ty.rs:1307-1336 | Sums, differences and products are exact results brought back into the type, and fail exactly where these are no `i128` |
| ConstMeaning.DivisionMeaning | co2_crate_sig/src/ty.rs:1337-1360 | `l == q * r + m` with the remainder smaller than the divisor and of the sign of `l`; fails exactly for a zero divisor or a quotient that is no `i128` |
| ConstMeaning.BitwiseMeaning | co2_crate_sig/src/ty.rs:1361-1363 | `&`, `\|` and `^` work digit by digit on two's complements |
| ConstMeaning.LeftShiftMeaning | co2_crate_sig/src/ty.rs:1388-1390 | `<<` multiplies modulo 2^128; a distance of 128 or more is an error |
| ConstMeaning.RightShiftMeaning | co2_crate_sig/src/ty.rs:1391-1393 | `>>` divides by the power of two, rounding down |
| ConstMeaning.CastMeaning | co2_crate_sig/src/ty.rs:1888-1942 | What a cast makes of a value: reduced to an integer type, 0 or 1, or a Unicode scalar value or nothing |
| ConstMeaning.EnumeratorsCount | co2_crate_sig/src/ty.rs:1758-1763 | Enumerators without initializer count up from the one before them |
| ConstMeaning.FirstEnumerator | co2_crate_sig/src/ty.rs:1753-1758 | The first enumerator is 0 unless it says otherwise |
| ConstMeaning.LeafMeaning | co2_crate_sig/src/ty.rs:1230-1233 | Literals have the value they spell |
| ConstMeaning.OperandRange | co2_crate_sig/src/ty.rs:1581-1700 | The range of values of an operand's type, by suffix, prefix or cast |
| ConstMeaning.ValuesFit | co2_crate_sig/src/ty.rs:1226-1413 | With `i128` literals every value is an `i128`, in either evaluator |
| EnumEval.Evaluator.constructor | co2_crate_sig/src/ty.rs:1737-1743 | An empty cache is valid |
| Layouts.SizeofHirTy | co2_crate_sig/src/ty.rs:2410-2515 | The field loops compute the recursive layout, unsupported types included |
| Layouts.SizeofFields | co2_crate_sig/src/ty.rs:2459-2479 | The two field loops: in order and padded in a struct, the maximum in a union |
| Layouts.OffsetofFieldStep | co2_crate_sig/src/ty.rs:2240-2308 | The loop over earlier fields recomputes the position the `sizeof` loop gave the field |
| Layouts.FieldOffset | co2_crate_sig/src/ty.rs:2290-2300 | The running offset over the earlier fields is where the field starts |
| Layouts.FieldOf | co2_crate_sig/src/ty.rs:2265-2303 | One physical field: at 0 in a union, after the earlier fields in a struct |
| Layouts.OffsetofIndexStep | co2_crate_sig/src/ty.rs:2218-2234 | One array index, without a bound check |
| Layouts.OffsetofStep | co2_crate_sig/src/ty.rs:2211-2235 | One designator, member or index |
| Layouts.OffsetofHirTy | co2_crate_sig/src/ty.rs:2200-2238 | Designators add up, one after the other |
| LayoutLaws.FieldSpan | co2_crate_sig/src/ty.rs:2462-2470 | A field starts at its capped alignment and ends where the fields up to it end |
| LayoutLaws.FieldsInOrder | co2_crate_sig/src/ty.rs:2462-2470 | Struct fields lie one after the other without overlap, for any pack |
| LayoutLaws.DesignatorWithin | co2_crate_sig/src/ty.rs:2200-2308 | Whatever an in-range designator names lies inside the object, for any nesting and any pack |
| LayoutLaws.SizeIsMultiple | co2_crate_sig/src/ty.rs:2410-2515 | Every size is a whole number of alignments, so array elements stay aligned |
| LayoutLaws.DesignatorNatural | co2_crate_sig/src/ty.rs:2200-2308 | Without packing, everything a designator names is naturally aligned |
| LayoutLaws.DesignatorAligned | co2_crate_sig/src/ty.rs:2200-2308 | With power-of-two packs, everything a designator names lies at a multiple of the smallest capped alignment along its path |
| LayoutLaws.LayoutsAgree | co2_crate_sig/src/struct_manager.rs:1051-1095 | Where the record builder can tell a plain type's layout in bits, `sizeof` gives the same in bytes |
| LayoutLaws.PackedStructAgrees | co2_crate_sig/src/struct_manager.rs:1051-1095 | Over fields that agree, a struct agrees exactly when its pack is not below its alignment, or the alignment is 1 |
| LayoutLaws.UnionAgrees | co2_crate_sig/src/struct_manager.rs:1051-1095 | Over fields that agree, a union agrees exactly when its pack caps nothing and adding its members up gives the same padded size |
| LayoutLaws.EnumAgrees | co2_crate_sig/src/struct_manager.rs:1068-1071 | An enum agrees exactly when its payload has the size and alignment of an `int` |
| LayoutLaws.UnionsDisagree | co2_crate_sig/src/struct_manager.rs:1051-1095 | A union of two `int`s is 64 bits to the builder and 4 bytes to `sizeof` |
| LayoutRules.ScalarSizes | co2_crate_sig/src/ty.rs:2410-2515 | Sizes of the scalars in bytes, each its own alignment |
| LayoutRules.WrappedSizes | co2_crate_sig/src/ty.rs:2410-2515 | Typedefs and enums are laid out like what they stand for, a complex number like an array of two |
| LayoutRules.ArraySizes | co2_crate_sig/src/ty.rs:2410-2515 | Another element adds its size and changes no alignment |
| LayoutRules.FieldTight | co2_crate_sig/src/ty.rs:2459-2479 | Each field starts as early as its capped alignment allows after the one before it |
| LayoutRules.StructTight | co2_crate_sig/src/ty.rs:2459-2479 | A struct is as aligned as its most aligned field and ends at the first multiple of that after its last field |
| LayoutRules.UnionTight | co2_crate_sig/src/ty.rs:2459-2479 | A union is as aligned as its most aligned field and as large as its largest, padded to that |
| LayoutRules.KnownExactly | co2_crate_sig/src/ty.rs:2459-2479 | A record has a layout exactly if all its fields have one |
| LayoutRules.DesignatorsCompose | co2_crate_sig/src/ty.rs:2200-2308 | Designators compose: to a part, then from there |
| LayoutRules.IndexRule | co2_crate_sig/src/ty.rs:2218-2234 | An index takes that many elements |
| LayoutRules.MemberRule | co2_crate_sig/src/ty.rs:2240-2308 | A member path takes its fields one after the other |
| LayoutRules.UnionFieldAtStart | co2_crate_sig/src/ty.rs:2265-2303 | Every field of a union starts where the union does |
| Imports.ImportTracker.CheckSingleImport | co2_crate_sig/src/imports.rs:41-62 | Rejects a second single import of a name and one over a binding no glob made |
| Imports.ImportTracker.constructor | co2_crate_sig/src/imports.rs:20-38 | Nothing imported yet |
| Imports.ImportTracker.CommitSingleImport | co2_crate_sig/src/imports.rs:65-76 | Makes the name single and forgets glob sources and ambiguity, in this module only |
| Imports.ImportTracker.NoteGlobName | co2_crate_sig/src/imports.rs:82-117 | First source is noted, a second distinct one makes the name ambiguous, singles and locals win |
| Imports.ImportTracker.ImportOne | co2_crate_sig/src/resolver.rs:700-762 | A single import is rejected and changes nothing, or binds its alias and becomes single; no other module changes |
| Imports.ImportTracker.ImportOffered | co2_crate_sig/src/resolver.rs:673-693 | One offered name is noted and bound only if nothing is bound yet |
| Imports.ImportTracker.ImportGlob | co2_crate_sig/src/resolver.rs:636-697 | Every offered name is treated on its own, whatever the order in which the map yields them |
| Imports.ImportTracker.ImportUseItems | co2_crate_sig/src/resolver.rs:622-768 | The loop gives each name the view of the import list, leaves other modules alone, and in a module with only locals reports exactly, in order, the single imports whose alias is local or that of an earlier single import |
| Imports.RejectsDuplicates | co2_crate_sig/src/resolver.rs:700-718 | A single import is rejected exactly if its alias is local or that of an earlier single import |
| Imports.NoDuplicates | co2_crate_sig/src/resolver.rs:700-718 | Nothing is reported exactly if no import is such a duplicate |
| Imports.DuplicatesSkipped | co2_crate_sig/src/resolver.rs:622-768 | Every name ends as if only the accepted imports had been there |
| Imports.AcceptedDistinct | co2_crate_sig/src/resolver.rs:622-768 | The accepted imports have distinct aliases, none of them local |
| Imports.MeansAfter | co2_crate_sig/src/resolver.rs:622-768 | Running a well-formed list gives every name its order-free meaning: local, else single, else glob, ambiguous with two glob sources |
| Imports.OrderIrrelevant | co2_crate_sig/src/resolver.rs:622-768 | Any reordering of a well-formed list ends with the same singles, the same ambiguous names and the same binding of each unambiguous name |
| Imports.WellFormedAnyOrder | co2_crate_sig/src/resolver.rs:622-768 | Distinct, non-local aliases stay so in any order |
| Imports.SplitAfter | co2_crate_sig/src/imports.rs:41-117 | After any imports, duplicates included, bound names split into local, single and glob-bound, and only glob-bound ones are ambiguous |
| Imports.SameViews | co2_crate_sig/src/imports.rs:30-38 | The views of all names determine the module's items and policy maps, so nothing escapes the per-name results |
| ModuleTree.ExpandedName | co2_crate_sig/src/resolver.rs:94-155 | An expanded module's name is its last public child, else its first child, else its first inherent function |
| ModuleTree.ChildrenChosen | co2_crate_sig/src/resolver.rs:121-150 | Of several children of one name the last public one is kept, or else the first |
| ModuleTree.FillImplChildren | co2_crate_sig/src/resolver.rs:94-111 | Inherent functions never replace what is there |
| ModuleTree.EnsureExpanded | co2_crate_sig/src/resolver.rs:113-155 | One level is built from the dependency's children and inherent functions; an expanded node stays |
| ModuleTree.ResolvePath | co2_crate_sig/src/resolver.rs:180-198 | Answers as the path means and leaves a tree that answers every later path as the old one would have |
| PathMeaning.LookupMeaning | co2_crate_sig/src/resolver.rs:171-198 | A path resolves exactly if a trail of modules, items and methods leads along its segments, generic arguments skipped, and then to the trail's end: functions, constants and statics as expressions |
| PathMeaning.OneStop | co2_crate_sig/src/resolver.rs:113-155 | A name leads to one stop at most |
| ModuleTree.ResolveAll | co2_crate_sig/src/resolver.rs:171-198 | Any sequence of lookups gets the answers of the unexpanded tree |
| Scopes.Innermost | co2_crate_sig/src/resolver.rs:978-988 | The deepest enclosing scope that binds the name |
| Scopes.Navigate | co2_crate_sig/src/resolver.rs:978-984 | Follows a module path segment by segment, or finds it missing |
| Scopes.WayFound | co2_crate_sig/src/resolver.rs:978-984 | A module is found only if each segment is listed in the module before it |
| Scopes.WayFollowed | co2_crate_sig/src/resolver.rs:978-984 | Such a way down leads to the module found |
| Scopes.ResolveRelative | co2_crate_sig/src/resolver.rs:957-992 | A plain name is answered by the innermost scope that binds it, or by none |
| Scopes.AmbiguousInScope | co2_crate_sig/src/imports.rs:127-141 | True exactly when the scope that answers for the name lists it as ambiguous |
| Spans.InternTable.New | co2_ast/src/span.rs:124-155 | The new span decodes to its ordered data, and no span handed out before decodes differently |
| Spans.InternTable.constructor | co2_ast/src/span.rs:109-117 | An empty table |
| Spans.InternTable.EqualIffSameData | co2_ast/src/span.rs:104-168 | Spans are equal exactly when they stand for the same data |
| Spans.NewAll | co2_ast/src/span.rs:119-168 | Over any sequence of calls, decoding is stable and equality is equality of ordered data |
| Dedup.CountsForemost | co2_crate_sig/src/lowering.rs:810-952 | In an error-free unit the first pass finds, for every name that occurs, the first of its most important entries |
| Dedup.CleanExactly | co2_crate_sig/src/lowering.rs:810-952 | The first pass finds no error exactly when each entry merges with the foremost one of its name before it |
| Dedup.OrderMatters | co2_crate_sig/src/lowering.rs:741-793 | Acceptance depends on order: of three declarations one order is accepted and another refused, though the same pair does not merge |
| Dedup.RustTypeAlone | co2_crate_sig/src/lowering.rs:741-793 | In an error-free unit a Rust type shares its name with no other entry |
| Dedup.ItemsKept | co2_crate_sig/src/lowering.rs:970-1030 | The second pass over items keeps exactly the entries the first pass's numbers select |
| Dedup.KeptOnce | co2_crate_sig/src/lowering.rs:970-1030 | Numbers left are those of the foremost entries, increasing, one per name |
| Dedup.Deduplicated | co2_crate_sig/src/lowering.rs:721-1035 | After an error-free unit: an order-preserving selection with each declared name exactly once |
| Dedup.FirstPass | co2_crate_sig/src/lowering.rs:810-952 | Numbers every entry in order, keeps the best entry per name, and finds no error exactly when each entry merges with the foremost one of its name before it |
| Dedup.CountEntry | co2_crate_sig/src/lowering.rs:829-848 | One entry: taken up if new or more important and no Rust type, an error if it does not merge |
| Dedup.CountDeclarators | co2_crate_sig/src/lowering.rs:888-946 | Every declarator of a declaration takes the next number and is counted |
| Dedup.SecondPass | co2_crate_sig/src/lowering.rs:970-1030 | Numbers the items as the first pass did and drops what is not best |
| Dedup.KeepDeclarators | co2_crate_sig/src/lowering.rs:1014-1026 | Keeps exactly the declarators whose numbers are best, and moves past all of them |
| Dedup.Deduplicate | co2_crate_sig/src/lowering.rs:721-1035 | The errors are, in order, the names of the entries that do not merge with the best one of their name before them; without errors the items are deduplicated |
| Dedup.CountsChampion | co2_crate_sig/src/lowering.rs:810-952 | At any time, errors or not, the map holds the first of the most important entries of each name, Rust types only if they were first |
| DedupRules.MergeRules | co2_crate_sig/src/lowering.rs:741-793 | Which kinds merge: own sort, not two definitions, either sort through a typedef name with two exceptions, Rust items never |
| DedupRules.KindMeaning | co2_crate_sig/src/lowering.rs:888-910 | What a declaration says of its name |
| DedupRules.SameSort | co2_crate_sig/src/lowering.rs:810-952 | In an error-free unit all entries of a name are of the sort of its best one, or of either |
| DedupRules.DefinedOnce | co2_crate_sig/src/lowering.rs:810-952 | An error-free unit defines a name at most once |
| DedupRules.DefinitionOutlives | co2_crate_sig/src/lowering.rs:721-1035 | The initialized variable or function definition is what is left of its name |
| DedupRules.DeclarationOutlives | co2_crate_sig/src/lowering.rs:721-1035 | Without one: declarations over `extern` ones, sized tentative variables over unsized over `extern` ones, all over typedef-named declarations |
| Mangling.SymbolSuffix | co2_ast/src/lib.rs:1721-1730 | The loop writes every segment with its length in front |
| Mangling.SymbolName | co2_ast/src/lib.rs:1717-1719 | The symbol is a fixed prefix and the suffix of path and name |
| Mangling.ReadDecimal | co2_ast/src/lib.rs:1725 | A printed length reads back, up to its terminator |
| Mangling.DecodePieces | co2_ast/src/lib.rs:1721-1730 | A suffix decodes to the segments it was made of, underscores and digits in them included |
| Mangling.SymbolsDistinct | co2_ast/src/lib.rs:1717-1730 | Distinct pairs of module path and name get distinct symbols |
| Specifiers.OneMeaning | co2_crate_sig/src/ty.rs:64-272 | A specifier list has one outcome |
| Specifiers.Take | co2_crate_sig/src/ty.rs:135-195 | One specifier is refused exactly when it makes the list uncountable, and otherwise counted |
| Specifiers.TakeAll | co2_crate_sig/src/ty.rs:129-195 | The counting loop refuses a list exactly when it repeats or mixes what may not be, in whatever order |
| Specifiers.Build | co2_crate_sig/src/ty.rs:64-272 | Type or rejection depend on the multiset of specifiers only (section 6.7.2 of ISO C11) |
| SpecifierRules.IntegerRule | co2_crate_sig/src/ty.rs:200-272 | `short`, `int`, `long` and `long long` with at most one sign: accepted combinations exactly, of 16, 32 and 64 bits |
| SpecifierRules.SignedBaseRule | co2_crate_sig/src/ty.rs:200-272 | `char` and `__int128` take one sign and nothing else |
| SpecifierRules.DoubleRule | co2_crate_sig/src/ty.rs:200-272 | `double` takes `long` and nothing else |
| SpecifierRules.FloatRule | co2_crate_sig/src/ty.rs:200-272 | The other floating types stand alone |
| SpecifierRules.ComplexRule | co2_crate_sig/src/ty.rs:200-272 | `_Complex` pairs whatever primitive type the rest names, or `double` |
| SpecifierRules.AloneRule | co2_crate_sig/src/ty.rs:64-135 | A specifier that has to stand alone is refused in any company |
| ArrayLength.SubscriptStarts | co2_crate_sig/src/lowering.rs:2930-2961 | After an item with a subscript the cursor is past that element's start exactly when the items before did not end inside it |
| ArrayLength.ItemFills | co2_crate_sig/src/lowering.rs:2930-2974 | An item fills its slots, at least one, from the cursor or from the element its subscript names |
| ArrayLength.MeasuredMore | co2_crate_sig/src/lowering.rs:2959-2974 | One turn moves the cursor past the item and keeps the least length |
| ArrayLength.InferUnsizedArrayLen | co2_crate_sig/src/lowering.rs:2927-2975 | The inferred length is the least that covers every initializer; refused exactly for a negative, field or range designator |

## Left out

- Diagnostics: `collect_diagnostics`, spans, messages, timing and the order of reports at one point; a leak carries the local and the blamed point.
- Analyze.ErrorsExact: pins down the reported (point, local) pairs and the `Moved` kind; a `Uninit` report may have been recorded on a visit before `moved` arrived, so of that kind only soundness is stated.
- The `cfg_edge` and `path_is_var` facts, which the analysis never reads.
- The kill of a call destination's targets reaches no successor, as in the source, which computes the entry states from statements alone.
- Points-to results speak of the analysis's own transfer along walks, not of a heap: a store through a pointer to a pointer does not update the pointee's targets.
- That a local which takes the address of another has the deeper pointer type is part of `Mir.Body.Valid`, as MIR's type rules have it; types are otherwise not modelled.
- Which types need dropping, how many pointer layers they start with, or whether they are unit is given per local; the type queries behind that are not part of this model.
- Words of 64 bits are natural numbers below 2^64 with shift, mask, `|` and `& !` defined on their binary digits.
- Bit and byte sizes do not overflow a `usize`.
- `bitfield_storage_ty` and the layout functions see a tree of types; resolving a typedef'd or nested definition by its id, `DefId` allocation and field visibility are not modelled. Neither is `resolve_logical_field_ty`, a lookup that would add only easy members.
- Variable-length arrays as members or bit-field widths, and alignment specifiers, which `define_def` reports or ignores.
- RecordBuilder.Builder.Align: a pack that makes the wanted alignment no integer width is an error value here and a panic in the source.
- BitAccess.UnionFieldsOverlay: the bytes of a union are one little-endian word whose low bits every storage field reads.
- Absolute positions of bit-fields in memory and the GCC ABI: bit-fields are placed relative to their storage unit.
- Floats, `sizeof`, `offsetof`, statement expressions, generic selections, null-pointer tricks and dependency constants inside constant expressions, and ISO C11 promotions, which the source does not perform.
- ConstLaws.EvaluatorsAgree: an enumerator's increment past `i128::MAX` counts as failure; the source adds without a check there.
- EnumEval.Evaluator.EvalLocalConst: declarations refer only to earlier ones, as lowering order guarantees.
- Layouts.OffsetofFieldStep: the path of physical field indices is given; resolving a field name through anonymous members is not modelled.
- LayoutLaws.LayoutsAgree: one direction over whole types; the exact conditions for packs, unions and enums are stated one record at a time, over fields that agree.
- Imports.ImportUseItems: targets are given as resolved items, so the error of an unresolved target and the traits brought into scope are not modelled.
- Imports.OrderIrrelevant: an import whose path resolves through another import of the same list is outside it, because targets are resolved beforehand.
- ModuleTree.ResolvePath: works on an owned tree and returns the expanded one, where the source expands in place.
- Scopes.ResolveRelative: covers plain names; anchored paths (`crate`, `self`, `super`) and paths into dependencies go straight to `ModuleTree.ResolvePath`. The tree each walk leaves is dropped, since it answers alike.
- Scopes.AmbiguousInScope: modules are keyed by their paths, where the source joins the segments with `::`.
- Scopes: a crate module that is not expanded counts as missing, where the source panics.
- Spans.InternTable.New: takes fewer than 2^32 interned spans as a precondition; the mutex is taken as sequential.
- Dedup: turning inline definitions into `extern` ones and clashes of module names with items.
- Mangling: characters stand for bytes.
- ArrayLength: slots consumed by an initializer and slots per element are given, the latter positive; string initializers are not modelled.
- Specifiers: attributes, qualifiers and the error texts.
- Parsing, preprocessing, expression and statement lowering, MIR and HIR generation, trait and method resolution, the driver.
