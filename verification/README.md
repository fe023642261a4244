# Proofs about the systems of this repository

This project models the cores of six of its systems and proves their main promises. Nothing
here was executed; every statement is proved for all inputs, all runs or all reachable states.

- **SimpleLang compiler** (`Compiler*.dfy`). From syntax tree over three-address code and stack bytecode to the
  virtual machine. `CompilerCorrect` is an if-and-only-if for every result of every well-named program.
- **Raft** (`Raft*.dfy`). Servers and a bag of messages that may be lost, duplicated and reordered.
  `ElectionSafety` holds over runs with crashes, `LogMatching` over runs without.
- **simple-fs** (`Fs*.dfy`). The write-ahead log (`CrashAtomicity`, the reservation argument) and file contents
  over bitmap, direct and indirect blocks (`FileSystem.Write`, `FileSystem.Read`, `FileSystem.Truncate`).
- **Transaction manager** (`Mvcc*.dfy`). Snapshot isolation on an order-preserving key encoding
  (`SnapshotRead`, `RepeatableRead`, `FirstCommitterWins`, `SnapshotScan`).
- **Storage engine** (`Sst*.dfy`, `Lsm*.dfy`, `Storage*.dfy`, `Skip*.dfy`, `Lru*.dfy`). SSTable round trip,
  k-way merge, level placement, log recovery, skip list and block cache.
- **Consistent hash ring** (`HashRing*.dfy`). Minimal movement and replica selection.

Each imperative part has a class or a loop proved against a specification; the theorems are about that
specification. `Bytes.dfy` and `Bits.dfy` hold what several parts share.

## What the proofs found

- Compiler: operands are read when they are used, so `x + 1/0` with `x` unset reports the division
  (`OrdersDifferOnFaults`). A statement `x;` generates no code and never faults (`BareVariableIsDropped`). These two
  are all that sets a compiled program apart from its left-to-right meaning, and `CompiledExactly` says exactly when
  they do; values are right whenever the source returns one (`ReturnsCorrect`). A variable
  named like a temporary is overwritten by it: `TempCollision` shows it for `t0`, and `ScopeExactly` proves that these
  names are the only ones to avoid. Variables live in one flat store, and a declaration
  without an initial value does nothing.
- File-system log: the test for a full log comes before the test for a block already logged, so the branch is
  reachable, but only for a block that needs no room (`FullBranchReachable`, `NewBlockNeverRefused`).
- File-system blocks: a failed allocation of the indirect block goes unnoticed and block 0 is used in its
  place; this is harmless exactly while block 0 holds zeros (`BootBlockBelieved`).
- Transaction manager: a NUL byte inside a key can break the key order (`NulBreaksOrder`); `OrderExactly` says for
  which pairs of keys it does.
- Log recovery: an update with an empty key is refused by the memtable but already logged, and from then on the
  database cannot be reopened (`RecoverySucceedsExactly`): a flush reopens the log without truncating it, and nothing
  else calls the truncation either. Reopening appends behind whatever the file
  holds: behind a record boundary every later update is recovered, behind a torn record there is always one that is
  not (`AppendSurvivesExactly`; `AppendBehindTearIsLost` is the smallest instance).
- Storage reads: a key marked deleted in the memtable is looked up in the levels all the same, so a deleted value comes
  back until the next flush; `ReadsExactly` says exactly when, `DeletedKeyReturns` shows it.
- Compaction: target files outrank source files in the merge, so an overwritten value can come back;
  `CompactionReads` says exactly when, `OldValueReturns` shows it.
- Function calls: a function called by `main` ends the whole program when it returns (`CallAndReturn`); the compiler
  theorems are about programs without calls.
- Hash ring: with two nodes at the same position a join can move keys between old nodes; the exact
  condition is in `MinimalMovementExactly`.

## Modelling decisions

Hash functions and CRC-32 are fixed but arbitrary functions. Random choices (node heights, election timeouts) are
parameters. Byte order and structure padding are those of a little-endian 64-bit machine. Fixed integer widths are
written out where they matter: varints, on-disk lengths, timestamps, file offsets. Where a malformed but
checksum-valid file would make the source read outside a buffer, the model reports a separate outcome.

The transaction manager's store is the memtable alone, as the storage iterator reads nothing else
(projects/data/storage-engine/src/storage.c, lines 226 to 299): the results on transactions hold as long as no flush
moves entries out of the memtable.

## Model

| member | source | states |
|---|---|---|
| CompilerNames.LiteralRoundTrip | projects/language/simple-compiler/src/simple_compiler/code_generator.py:115-122 | A printed integer literal is read back as that integer, also when negative. |
| CompilerNames.TempInjective | projects/language/simple-compiler/src/simple_compiler/ir_generator.py:16-20 | Different temporary numbers give different names. |
| CompilerNames.LabelInjective | projects/language/simple-compiler/src/simple_compiler/ir_generator.py:22-26 | Different label numbers give different names. |
| CompilerNames.GeneratedNamesApart | projects/language/simple-compiler/src/simple_compiler/ir_generator.py:16-26 | Temporaries, labels and literals never coincide, none is the entry label, and only literals are read as constants. |
| CompilerSource.FloorDivMod | projects/language/simple-compiler/src/simple_compiler/vm.py:160-167 | Division floors and the remainder takes the divisor's sign, as Python's `//` and `%` do. |
| CompilerOrders.OrdersDifferExactly | projects/language/simple-compiler/src/simple_compiler/ir_generator.py:114-148 | Reading operands left to right or as late as the generated code does gives different results if and only if an unset variable is overtaken by a division by zero to its right; both then fault. |
| CompilerOrders.OrdersAgreeOnValues | projects/language/simple-compiler/src/simple_compiler/ir_generator.py:114-148 | Both orders give a value on the same stores, and the same value. |
| CompilerOrders.OrdersDifferOnFaults | projects/language/simple-compiler/src/simple_compiler/ir_generator.py:114-148 | Concrete expression on which the two orders report different errors. |
| CompilerOrders.BareVariableDiffersExactly | projects/language/simple-compiler/src/simple_compiler/ir_generator.py:67-68 | The statement `x;` differs if and only if `x` is unset. |
| CompilerOrders.RunsDifferExactly | projects/language/simple-compiler/src/simple_compiler/ir_generator.py:43-112 | Two whole runs differ if and only if an overtaken expression is reached, or an unset `x;` is reached and the generated code does not report an undefined variable later on. |
| CompilerOrders.DropCanGoUnseen | projects/language/simple-compiler/src/simple_compiler/ir_generator.py:67-68 | Concrete program on which the dropped `x;` makes no difference, because the next statement reports the same error. |
| CompilerOrders.StripSame | projects/language/simple-compiler/src/simple_compiler/ir_generator.py:67-68 | The generated code runs as if the bare-variable statements were not in the program. |
| CompilerOrders.StrippedRunsDifferExactly | projects/language/simple-compiler/src/simple_compiler/ir_generator.py:43-112 | Against the source without those statements, runs differ if and only if an overtaken expression is reached. |
| CompilerOrders.OneOutcome | projects/language/simple-compiler/src/simple_compiler/ir_generator.py:93-112 | A program has one outcome in either order, however long the run is allowed to take. |
| CompilerOrders.OrdersAgree | projects/language/simple-compiler/src/simple_compiler/ir_generator.py:43-112 | Whole runs agree in both orders up to faults; without bare-variable statements they fault on the same runs. |
| CompilerIR.StmtLabels | projects/language/simple-compiler/src/simple_compiler/ir_generator.py:43-112 | Labels generated for a statement are distinct and lie in the counter range it consumed. |
| CompilerIR.MainLabelsUnique | projects/language/simple-compiler/src/simple_compiler/ir_generator.py:34-41 | No label is defined twice in the code of `main`. |
| CompilerSim.ExprSim | projects/language/simple-compiler/src/simple_compiler/ir_generator.py:114-148 | Running the code of an expression ends with its value in its result operand, or with its fault, and touches only its own temporaries. |
| CompilerSim.StmtSim | projects/language/simple-compiler/src/simple_compiler/ir_generator.py:43-68 | Running the code of a statement matches its source meaning: same store, return value or fault, or both still running. |
| CompilerSim.IfSim | projects/language/simple-compiler/src/simple_compiler/ir_generator.py:70-91 | The same for `if` through its conditional jump and two labels. |
| CompilerSim.WhileSim | projects/language/simple-compiler/src/simple_compiler/ir_generator.py:93-112 | The same for `while`, over any number of iterations. |
| CompilerSim.MainSim | projects/language/simple-compiler/src/simple_compiler/ir_generator.py:34-41 | The code of `main` simulates the whole source run. |
| CompilerBackend.LabelAddress | projects/language/simple-compiler/src/simple_compiler/bytecode.py:73-82 | The label table maps each label to the address of the code behind it. |
| CompilerBackend.StepSim | projects/language/simple-compiler/src/simple_compiler/code_generator.py:29-64 | One IR step is matched by its bytecode, from empty operand stack to empty operand stack. |
| CompilerBackend.RunSim | projects/language/simple-compiler/src/simple_compiler/vm.py:18-158 | Whole IR runs are whole machine runs. |
| CompilerTheorem.Forward | projects/language/simple-compiler/src/simple_compiler/vm.py:18-39 | Every source run that ends is matched by the machine; one that does not keeps the machine running at least as long. |
| CompilerTheorem.Backward | projects/language/simple-compiler/src/simple_compiler/vm.py:18-39 | If the machine stops, so does the source, with the same result. |
| CompilerTheorem.CompilerCorrect | projects/language/simple-compiler/src/simple_compiler/vm.py:18-39 | For every result: the source can end with it if and only if the machine does. |
| CompilerTheorem.NoMachineFault | projects/language/simple-compiler/src/simple_compiler/vm.py:41-158 | Compiled programs never underflow the operand stack and never jump through an unresolved label. |
| CompilerTheorem.CompiledExactly | projects/language/simple-compiler/src/simple_compiler/ir_generator.py:43-148 | The compiled program has the results of the left-to-right meaning if and only if the run never reaches an overtaken expression, and reaches an unset `x;` only if, without such statements, it would still report an undefined variable that is not overtaken. |
| CompilerTheorem.ReturnsStripped | projects/language/simple-compiler/src/simple_compiler/ir_generator.py:43-148 | The machine returns a value if and only if the left-to-right meaning of the program without its statements `x;` does. |
| CompilerTheorem.ReturnsCorrect | projects/language/simple-compiler/src/simple_compiler/ir_generator.py:43-148 | Every value the source returns left to right is returned by the machine; the converse fails exactly when the source stops at an unset `x;` and would return the value without it. |
| CompilerTheorem.FaultsCorrect | projects/language/simple-compiler/src/simple_compiler/ir_generator.py:43-148 | A test on the program text: order-safe and without bare-variable statements, the very fault is the same, in both directions. |
| CompilerTheorem.BareVariableIsDropped | projects/language/simple-compiler/src/simple_compiler/ir_generator.py:67-68 | The statement `x;` with `x` declared but unset: a fault in the source meaning, while the compiled program goes on and returns. |
| CompilerScope.ScopeExactly | projects/language/simple-compiler/src/simple_compiler/ir_generator.py:16-20 | For any set of identifiers: every program over them is compiled correctly, result for result, if and only if none of them is the name of a temporary. |
| CompilerScope.ClearIsRight | projects/language/simple-compiler/src/simple_compiler/ir_generator.py:16-148 | A program whose variables are all clear of every temporary name has exactly the results of its source. |
| CompilerScope.Collision | projects/language/simple-compiler/src/simple_compiler/ir_generator.py:114-148 | For every temporary name there is a well-declared program with that variable which returns 3 while its compiled form returns 4. |
| CompilerScope.TempCollision | projects/language/simple-compiler/src/simple_compiler/ir_generator.py:16-20 | The shortest instance: a variable called `t0`. |
| CompilerClasses.IRGenerator.GenerateExpression | projects/language/simple-compiler/src/simple_compiler/ir_generator.py:114-148 | Appends exactly the specified code and advances the temporary counter as specified. |
| CompilerClasses.IRGenerator.GenerateStatement | projects/language/simple-compiler/src/simple_compiler/ir_generator.py:43-68 | Appends exactly the specified code for a statement. |
| CompilerClasses.IRGenerator.GenerateIfStatement | projects/language/simple-compiler/src/simple_compiler/ir_generator.py:70-91 | Appends exactly the specified code for `if`. |
| CompilerClasses.IRGenerator.GenerateWhileStatement | projects/language/simple-compiler/src/simple_compiler/ir_generator.py:93-112 | Appends exactly the specified code for `while`. |
| CompilerClasses.Bytecode.AddLabel | projects/language/simple-compiler/src/simple_compiler/bytecode.py:73-75 | Records the current address for a label. |
| CompilerClasses.Bytecode.ResolveLabels | projects/language/simple-compiler/src/simple_compiler/bytecode.py:77-82 | Rewrites every jump operand through the label table, in place. |
| CompilerClasses.CodeGenerator.GenerateInstruction | projects/language/simple-compiler/src/simple_compiler/code_generator.py:29-64 | Emits exactly the specified code of one IR instruction. |
| CompilerClasses.CodeGenerator.Generate | projects/language/simple-compiler/src/simple_compiler/code_generator.py:16-27 | The finished program is the assembled, resolved code. |
| CompilerClasses.VM.ExecuteInstruction | projects/language/simple-compiler/src/simple_compiler/vm.py:41-158 | One machine step, fault for fault. |
| CompilerClasses.VM.Execute | projects/language/simple-compiler/src/simple_compiler/vm.py:18-39 | The execution loop is the iterated step, cut off after a given number of instructions. |
| CompilerClasses.CompileAndRun | projects/language/simple-compiler/src/simple_compiler/vm.py:18-39 | Generator, assembler and machine composed: whatever is reported is the source's own result. |
| CompilerOpcodes.Arithmetic | projects/language/simple-compiler/src/simple_compiler/vm.py:62-69 | ADD, SUB and MUL leave the sum, difference and product of the two topmost values, the lower one on the left. |
| CompilerOpcodes.Quotients | projects/language/simple-compiler/src/simple_compiler/vm.py:71-79 | DIV and MOD leave the quotient rounded down and the remainder with the divisor's sign. |
| CompilerOpcodes.ZeroDivisor | projects/language/simple-compiler/src/simple_compiler/vm.py:71-79 | A zero on top is a fault for DIV and MOD. |
| CompilerOpcodes.Comparisons | projects/language/simple-compiler/src/simple_compiler/vm.py:87-109 | LT, GT, LE, GE, EQ, NE, AND and OR leave 1 exactly when they hold, else 0. |
| CompilerOpcodes.Unary | projects/language/simple-compiler/src/simple_compiler/vm.py:81-85 | NEG leaves the negative, NOT leaves 1 exactly for 0. |
| CompilerOpcodes.TooFew | projects/language/simple-compiler/src/simple_compiler/vm.py:160-167 | Too few values on the stack are a fault. |
| CompilerOpcodes.Data | projects/language/simple-compiler/src/simple_compiler/vm.py:46-60 | PUSH, LOAD, STORE and POP: what they move, and the fault of an unset variable. |
| CompilerOpcodes.Jumps | projects/language/simple-compiler/src/simple_compiler/vm.py:117-138 | JMP, JZ and JNZ: when they jump, where to, and the value they use up. |
| CompilerOpcodes.CallAndReturn | projects/language/simple-compiler/src/simple_compiler/vm.py:140-150 | A return goes on behind the call exactly when the caller was itself called; a function called by `main` ends the program when it returns. |
| CompilerOpcodes.Ends | projects/language/simple-compiler/src/simple_compiler/vm.py:24-39 | A halt or a last return ends the program with the topmost value, or 0. |
| CompilerOpcodes.OperatorValues | projects/language/simple-compiler/src/simple_compiler/vm.py:62-109 | The value of every operator expression, from the values of its operands. |
| CompilerOpcodes.Conditional | projects/language/simple-compiler/src/simple_compiler/ir_generator.py:70-91 | A conditional runs the branch its condition selects. |
| CompilerOpcodes.LoopUnfolds | projects/language/simple-compiler/src/simple_compiler/ir_generator.py:93-112 | A loop is a conditional around one iteration and the loop again. |
| CompilerOpcodes.AssignThenRead | projects/language/simple-compiler/src/simple_compiler/ir_generator.py:43-52 | After an assignment the variable reads as the value, and every other as before. |
| CompilerOpcodes.ReturnStops | projects/language/simple-compiler/src/simple_compiler/ir_generator.py:61-66 | Nothing behind a return or a fault is run. |
| RaftElection.MajoritiesMeet | projects/distributed/consensus/src/election.c:280-312 | Two majorities of one cluster share a server. |
| RaftElection.OneWinner | projects/distributed/consensus/src/election.c:280-312 | Under the invariant, two winners of one term are the same server. |
| RaftElection.ElectionPreserved | projects/distributed/consensus/src/election.c:196-312 | Every handler step keeps the election invariant: votes are unique per term, counts are backed by votes. |
| RaftSafety.RunKeeps | projects/distributed/consensus/src/election.c:386-464 | The election invariant holds at every moment of every run with loss, duplication, reordering and crashes. |
| RaftSafety.CrashKeeps | projects/distributed/consensus/src/recovery.c:44-100 | A crash and restart from the saved term and vote keeps it. |
| RaftSafety.ElectionSafety | projects/distributed/consensus/src/election.c:196-312 | At most one server is ever leader of a term, over whole runs. |
| RaftLog.StoreMatches | projects/distributed/consensus/src/replication.c:134-235 | A follower that passed the previous-entry check keeps its log or ends with a prefix of the leader's. |
| RaftLog.LogPreserved | projects/distributed/consensus/src/replication.c:14-235 | Every handler step keeps the log invariant: each log and each request in flight is a true piece of its term leader's log. |
| RaftLog.LeaderAppendOnly | projects/distributed/consensus/src/raft.c:134-156 | Between any two moments at which a term has a leader, the later leader's log extends the earlier one's. |
| RaftLog.LogMatching | projects/distributed/consensus/src/replication.c:134-235 | Two logs with the same term at an index agree on everything up to it, at every moment of every run without crashes. |
| RaftWire.WireRoundTrip | projects/distributed/consensus/src/replication.c:14-81 | Parsing serialized entries gives them back. |
| RaftWire.SerializeEntries | projects/distributed/consensus/src/replication.c:14-81 | The serialization loop writes exactly the encoding of the slice. |
| RaftWire.Parse | projects/distributed/consensus/src/replication.c:134-235 | The parsing loop reads exactly the entries, stopping at a truncated one. |
| RaftLaws.PassesPreorder | projects/distributed/consensus/src/election.c:66-78 | Passing another log's check is reflexive, total and transitive. |
| RaftLaws.PassesTie | projects/distributed/consensus/src/election.c:66-78 | Two logs pass each other's check exactly when they have the same length and end in the same term. |
| RaftLaws.PassesStrictly | projects/distributed/consensus/src/election.c:66-78 | A log continued in no older term beats the shorter one, and a later last term beats any length. |
| RaftLaws.VoteExchange | projects/distributed/consensus/src/election.c:241-278 | A candidate's own request: granted exactly to an up-to-date log by a voter free in that term, and what the voter saves. |
| RaftLaws.ElectionBegins | projects/distributed/consensus/src/election.c:196-239 | A new term, the own vote saved and counted, and exactly one request to every peer. |
| RaftLaws.LoneServer | projects/distributed/consensus/src/election.c:196-239 | A server alone in its cluster leads at once with its whole log committed. |
| RaftLaws.ElectionWon | projects/distributed/consensus/src/election.c:280-312 | After any sequence of granted replies, duplicates included, the candidate leads exactly when the distinct voters and itself are a majority, with fresh peer indices. |
| RaftLaws.OtherReplies | projects/distributed/consensus/src/election.c:280-312 | A refusal, an old reply or a repeated one changes nothing. |
| RaftLaws.PreVoteExchange | projects/distributed/consensus/src/election.c:120-148 | A pre-vote is granted exactly to an up-to-date log of a term not behind by a server that hears from no leader, and changes nothing at the voter. |
| RaftLaws.PreVoteBegins | projects/distributed/consensus/src/election.c:80-118 | Asking for pre-votes leaves term and vote alone and asks every peer. |
| RaftLaws.PreVoteWon | projects/distributed/consensus/src/election.c:150-177 | After any sequence of granted pre-votes the server stands in the next term exactly when they are a majority. |
| RaftLaws.HigherTermWins | projects/distributed/consensus/src/election.c:46-64 | Whoever handles a message of a higher term follows in that term, and has saved it. |
| RaftLaws.LowerTermRefused | projects/distributed/consensus/src/replication.c:134-165 | A request of an older term is refused and changes nothing. |
| RaftLaws.StoreExactly | projects/distributed/consensus/src/replication.c:196-219 | Stored entries: the log is cut at the first difference and continued with the entries from there; it is unchanged exactly when all of them are there already. |
| RaftLaws.DifferenceOrPresent | projects/distributed/consensus/src/replication.c:196-219 | Either all entries are there or there is a first difference. |
| RaftLaws.PreviousEntry | projects/distributed/consensus/src/replication.c:167-180 | The check of the previous entry is passed exactly by a log that agrees with the leader's up to there. |
| RaftLaws.RequestFor | projects/distributed/consensus/src/replication.c:14-81 | A request carries the leader's entries from the peer's next index, up to the limit. |
| RaftLaws.RequestHandled | projects/distributed/consensus/src/replication.c:134-235 | The answer to a request of a current term, and the follower's log, role, timer and commit index after it. |
| RaftLaws.RequestAnswered | projects/distributed/consensus/src/replication.c:134-235 | A follower whose log agrees up to the previous entry ends with the leader's entries in its log; any other refuses and keeps its log. |
| RaftLaws.AnswerHandled | projects/distributed/consensus/src/replication.c:96-132 | What the leader learns from an answer about that peer, and about no other. |
| RaftLaws.SearchEnds | projects/distributed/consensus/src/replication.c:14-132 | Undisturbed exchanges find the common prefix: within as many as the leader has to go back, the follower holds the leader's entries behind it. |
| RaftLaws.CommitExactly | projects/distributed/consensus/src/commit.c:50-82 | The commit index moves to the newest entry of the current term that a majority is known to hold, and stays if there is none. |
| RaftLaws.TimerExpires | projects/distributed/consensus/src/election.c:386-464 | A server stands for election exactly when its timeout has passed. |
| RaftLaws.HeartbeatExchange | projects/distributed/consensus/src/election.c:314-384 | A heartbeat reaches every peer, makes a candidate follow, and keeps it from standing until the timeout has passed again. |
| RaftLaws.ProposalReplicated | projects/distributed/consensus/src/raft.c:134-156 | A proposal is appended in the leader's term, and one message makes a follower level with it again. |
| RaftLaws.TakesOver | projects/distributed/consensus/src/election.c:180-194 | Told by its leader to take over, a follower stands at once; nobody else does. |
| RaftLaws.ComesBack | projects/distributed/consensus/src/raft.c:32-132 | A recovered server has its saved term, vote and log, has committed nothing, and is quiet until started. |
| RaftServer.Server.StepDownTo | projects/distributed/consensus/src/election.c:46-64 | New term, no vote, follower; the whole new state. |
| RaftServer.Server.Lead | projects/distributed/consensus/src/raft.c:188-221 | Leader state with every peer's indices reset. |
| RaftServer.Server.Elect | projects/distributed/consensus/src/election.c:196-239 | New term, vote for itself, requests to all peers. |
| RaftServer.Server.OnRequestVote | projects/distributed/consensus/src/election.c:241-278 | The vote decision and the state it leaves. |
| RaftServer.Server.OnVoteReply | projects/distributed/consensus/src/election.c:280-312 | Counting one reply, and leading at a majority. |
| RaftServer.Server.OnPreVoteReply | projects/distributed/consensus/src/election.c:150-177 | Counting pre-votes, and starting the election at a majority. |
| RaftServer.Server.OnTimeoutNow | projects/distributed/consensus/src/election.c:180-194 | An immediate election. |
| RaftServer.Server.OnHeartbeat | projects/distributed/consensus/src/election.c:314-360 | The reply and state for a request without entries. |
| RaftServer.Server.OnAppend | projects/distributed/consensus/src/replication.c:134-235 | Previous-entry check, conflict truncation, appending, commit index: the whole new state. |
| RaftServer.Server.OnAppendReply | projects/distributed/consensus/src/replication.c:96-132 | Match and next index, and the commit index by counting. |
| RaftServer.Server.ReplicateTo | projects/distributed/consensus/src/replication.c:14-81 | The request for one peer is the slice from its next index. |
| RaftServer.Server.ProposeCommand | projects/distributed/consensus/src/raft.c:134-156 | A leader appends the command and replicates it. |
| FsLog.CutBefore | projects/systems/simple-fs/src/log.c:152-182 | A commit cut before its header write leaves an empty log and all home blocks old. |
| FsLog.CutAfter | projects/systems/simple-fs/src/log.c:174-182 | Cut after the header write, the transaction is decided. |
| FsLog.DecidedBecomesNew | projects/systems/simple-fs/src/log.c:99-107 | A decided transaction is completely installed by recovery, however often recovery crashes first. |
| FsLog.CrashAtomicity | projects/systems/simple-fs/src/log.c:76-182 | After any cut of a commit and any number of crashes during recovery: all old or all new, and new exactly when the header was on disk. |
| FsLogDevice.LogDevice.WriteLog | projects/systems/simple-fs/src/log.c:152-171 | The log blocks receive the cached contents, in order, one write each. |
| FsLogDevice.LogDevice.InstallTrans | projects/systems/simple-fs/src/log.c:76-96 | Each logged block is copied to its home, in order. |
| FsLogDevice.LogDevice.RecoverFromLog | projects/systems/simple-fs/src/log.c:99-107 | The disk after recovery, and the exact sequence of writes. |
| FsLogDevice.LogDevice.Commit | projects/systems/simple-fs/src/log.c:174-182 | The exact sequence of writes of a commit; every home block is new and the log empty. |
| FsReservation.NextKeeps | projects/systems/simple-fs/src/log.c:110-217 | Every event keeps the reservation invariant. |
| FsReservation.NewBlockNeverRefused | projects/systems/simple-fs/src/log.c:186-217 | In every reachable state an operation within its budget is never refused a new block. |
| FsReservation.FewCallsNeverFull | projects/systems/simple-fs/src/log.c:186-217 | An operation that makes at most the budgeted number of calls never meets a full log. |
| FsReservation.LogStaysWithinBounds | projects/systems/simple-fs/src/log.c:110-149 | Logged numbers are distinct and fit the header; no operation runs or is admitted during a commit. |
| FsReservation.FullBranchReachable | projects/systems/simple-fs/src/log.c:186-217 | A reachable state in which rewriting a logged block takes the log-full branch. |
| FsReservation.OpLog.TryBegin | projects/systems/simple-fs/src/log.c:110-125 | Admission exactly when the reservation fits and no commit runs. |
| FsReservation.OpLog.Write | projects/systems/simple-fs/src/log.c:186-217 | A write is logged or refused by a full log as specified, and goes straight to the disk when no operation is running. |
| FsReservation.OpLog.End | projects/systems/simple-fs/src/log.c:128-149 | The last operation out starts the commit. |
| FsReservation.IdleAdmits | projects/systems/simple-fs/src/log.c:110-125 | With no operation running and no commit under way the next one is admitted, also right after a commit. |
| FsReservation.LastOneCommits | projects/systems/simple-fs/src/log.c:128-149 | Ending an operation starts the commit exactly when it was the last one running. |
| FsAlloc.BallocStep | projects/systems/simple-fs/src/block.c:18-43 | Allocation turns one free data block into a zeroed block in transit and changes nothing else; 0 exactly when the disk is full. |
| FsAlloc.LinkStep | projects/systems/simple-fs/src/inode.c:231-259 | Linking sets exactly one pointer and keeps every block accounted for. |
| FsAlloc.FreeStep | projects/systems/simple-fs/src/block.c:46-68 | Freeing returns exactly that block. |
| FsFiles.BmapStep | projects/systems/simple-fs/src/inode.c:231-259 | Finding or allocating a file block keeps all pointers and data blocks of all files; a fresh block is zeroed; failure means a full disk. |
| FsBytes.StoreStep | projects/systems/simple-fs/src/inode.c:343-356 | Storing a chunk changes exactly the bytes it covers, in exactly one file. |
| FsBytes.WriteDone | projects/systems/simple-fs/src/inode.c:329-363 | After the write loop the file is the old bytes overlaid with the new, and every other file is unchanged. |
| FsBytes.WriteStopped | projects/systems/simple-fs/src/inode.c:343-349 | A write that runs out of blocks changed nothing outside its range and no other file. |
| FsTruncate.UnlinkStep | projects/systems/simple-fs/src/inode.c:264-293 | Cleared pointers leave their blocks in transit, none owned. |
| FsTruncate.TruncateDone | projects/systems/simple-fs/src/inode.c:264-293 | Other files cannot tell that a file was truncated. |
| FsFormat.FormattedOk | projects/systems/simple-fs/src/mkfs.c:77-142 | A freshly formatted disk with its root directory satisfies the invariant all operations keep; the root reads as its two entries, every other inode is empty. |
| FsFormat.RootEntries | projects/systems/simple-fs/src/mkfs.c:81-90 | The root block byte for byte: inode 1 under "." and "..", zeros elsewhere. |
| FsFormat.BootBlockBelieved | projects/systems/simple-fs/src/inode.c:242-254 | On a full disk the first indirect lookup returns what block 0 holds there: harmless if and only if that word is 0. |
| FsFileSystem.FileSystem.AllocBlock | projects/systems/simple-fs/src/block.c:18-43 | The bitmap scan finds the first free block, marks and zeroes it. |
| FsFileSystem.FileSystem.FreeBlock | projects/systems/simple-fs/src/block.c:46-68 | Clears the bit, or leaves a free block alone. |
| FsFileSystem.FileSystem.MapBlock | projects/systems/simple-fs/src/inode.c:231-259 | Direct and indirect mapping with allocation. |
| FsFileSystem.FileSystem.Read | projects/systems/simple-fs/src/inode.c:297-325 | Returns exactly the file's bytes in the range, clipped to its size, and changes nothing; errors exactly on a device, a start behind the end or 32-bit overflow. |
| FsFileSystem.FileSystem.Write | projects/systems/simple-fs/src/inode.c:329-363 | On success the overlay, other files untouched, saved inode in step; on failure either nothing happened or the disk is full. |
| FsFileSystem.FileSystem.Truncate | projects/systems/simple-fs/src/inode.c:264-293 | Every pointer cleared, every block free again, other files untouched. |
| MvccKeys.EncodeOrder | projects/data/tx-manager/src/version.c:10-38 | Byte order on encoded NUL-free keys is key ascending, version descending, in both directions. |
| MvccKeys.DecodeEncode | projects/data/tx-manager/src/version.c:40-70 | Decoding undoes encoding for every non-empty key. |
| MvccKeys.EncodeInjective | projects/data/tx-manager/src/version.c:10-38 | Different keys or versions have different encodings. |
| MvccKeys.OrderExactly | projects/data/tx-manager/src/version.c:10-38 | For any two keys: the order law holds over all versions if and only if neither continues the other with a NUL that can pass for its separator. |
| MvccKeys.NulBreaksOrder | projects/data/tx-manager/src/version.c:10-38 | Concrete keys with a NUL for which the order law fails. |
| MvccSnapshot.CommitKeepsStore | projects/data/tx-manager/src/tx_manager.c:176-239 | Applying a commit keeps the store equal to the replayed history. |
| MvccSnapshot.StoreGetCorrect | projects/data/tx-manager/src/tx_manager.c:258-348 | Seeking and stepping in the store reads exactly the snapshot at the timestamp. |
| MvccSnapshot.LatestTsCorrect | projects/data/tx-manager/src/conflict.c:11-56 | The conflict check reads the newest committed version of a key. |
| MvccRuns.RunKeeps | projects/data/tx-manager/src/tx_manager.c:127-256 | The invariant holds at every moment of every interleaving, also across a clean reopen. |
| MvccRuns.CheckIsolates | projects/data/tx-manager/src/conflict.c:58-76 | Passing the check means no commit since the snapshot wrote any of the keys. |
| MvccRuns.SnapshotRead | projects/data/tx-manager/src/tx_manager.c:258-348 | A transaction reads its own buffered write, else the replay of the commits up to its start. |
| MvccRuns.SnapshotStable | projects/data/tx-manager/src/tx_manager.c:127-155 | The snapshot of a running transaction never changes. |
| MvccRuns.RepeatableRead | projects/data/tx-manager/src/tx_manager.c:258-348 | Two reads of a key the transaction has not written agree, at any two moments of its life. |
| MvccRuns.FirstCommitterWins | projects/data/tx-manager/src/tx_manager.c:176-239 | Two commits, each begun before the other committed, wrote disjoint keys. |
| MvccLaws.ReadOwnWrite | projects/data/tx-manager/src/tx.c:69-129 | After a put or delete the transaction reads just that for the key, and every other key as before. |
| MvccLaws.OthersUnaffected | projects/data/tx-manager/src/tx_manager.c:241-256 | A buffered write is invisible to every other transaction. |
| MvccLaws.CommitDecision | projects/data/tx-manager/src/tx_manager.c:176-239 | A commit of a running transaction is refused if and only if some commit after its start wrote one of its keys. |
| MvccLaws.EndsAlone | projects/data/tx-manager/src/tx_manager.c:157-239 | A refused commit and an abort leave the committed data alone; either way that transaction is over and no other is touched. |
| MvccLaws.CommitApplies | projects/data/tx-manager/src/tx_manager.c:196-239 | A commit that answers OK applies exactly its write set to the newest state of the database. |
| MvccLaws.CommitIsRead | projects/data/tx-manager/src/tx_manager.c:196-239 | Read at the commit's timestamp, the store shows the transaction's own writes, and otherwise what it showed before. |
| MvccLaws.BeginReads | projects/data/tx-manager/src/tx_manager.c:127-155 | A transaction begins with nothing written, after every commit so far, and reads the newest state. |
| MvccLaws.NextReadsCommit | projects/data/tx-manager/src/tx_manager.c:127-239 | What a commit wrote is what the next transaction to begin reads. |
| MvccLaws.ReopenReads | projects/data/tx-manager/src/recovery.c:67-135 | Reopening loses the running transactions and nothing that was committed. |
| MvccScan.ScanCorrect | projects/data/tx-manager/src/tx_iter.c:51-175 | The scan lists every live key of the snapshot once, ascending, with the value a read returns, and nothing else. |
| MvccScan.SnapshotScan | projects/data/tx-manager/src/tx_iter.c:123-175 | The same for every active transaction of every run. |
| MvccManager.EncodeKey | projects/data/tx-manager/src/version.c:10-38 | The byte loop writes the specified encoding. |
| MvccManager.DecodeKey | projects/data/tx-manager/src/version.c:40-70 | The byte loop reads it, with its error cases. |
| MvccManager.TxManager.TxBegin | projects/data/tx-manager/src/tx_manager.c:127-155 | New transaction with the next timestamp, refused when the table is full. |
| MvccManager.TxManager.TxPut | projects/data/tx-manager/src/tx_manager.c:241-248 | Buffers one write per key. |
| MvccManager.TxManager.TxDelete | projects/data/tx-manager/src/tx_manager.c:250-256 | Buffers a deletion. |
| MvccManager.TxManager.AddBufferedWrite | projects/data/tx-manager/src/tx.c:69-129 | A later write of a key replaces the earlier one in place. |
| MvccManager.TxManager.SearchWrites | projects/data/tx-manager/src/tx.c:56-67 | Finds the write of a key. |
| MvccManager.TxManager.TxGet | projects/data/tx-manager/src/tx_manager.c:258-348 | The read specified by the snapshot theorems. |
| MvccManager.TxManager.GetLatestCommitTs | projects/data/tx-manager/src/conflict.c:11-56 | The newest version in the store. |
| MvccManager.TxManager.CheckWriteConflicts | projects/data/tx-manager/src/conflict.c:58-76 | Conflict if and only if some written key has a version after the start. |
| MvccManager.TxManager.TxCommit | projects/data/tx-manager/src/tx_manager.c:176-239 | Status and whole new state of a commit. |
| MvccManager.TxManager.TxAbort | projects/data/tx-manager/src/tx_manager.c:157-174 | Status and whole new state of an abort. |
| MvccManager.TxManager.OpenAndRecover | projects/data/tx-manager/src/recovery.c:67-135 | Scanning the log restores both counters beyond everything in it, after opening (tx_manager.c, lines 22 to 77) has reset them. |
| MvccManager.TxIter.AdvanceToVisible | projects/data/tx-manager/src/tx_iter.c:51-121 | Stops at the next visible live version. |
| MvccManager.TxIter.SeekToFirst | projects/data/tx-manager/src/tx_iter.c:123-127 | Starts at the first visible entry. |
| MvccManager.TxIter.Next | projects/data/tx-manager/src/tx_iter.c:149-175 | Skips the current key's other versions and stops at the next visible entry. |
| MvccManager.ScanAll | projects/data/tx-manager/src/tx_iter.c:123-175 | Seek and repeated stepping yield the specified scan. |
| LsmMerge.SiftRestores | projects/data/storage-engine/src/compact.c:270-292 | Sifting restores heap order from any node on and permutes the heap. |
| LsmMerge.TopIsFirst | projects/data/storage-engine/src/compact.c:254-267 | The heap's top has the least key and, among equals, the highest number. |
| LsmMerge.StepHeapKeeps | projects/data/storage-engine/src/compact.c:382-394 | Re-sifting or removing the top keeps exactly the valid iterators, in heap order. |
| LsmMergeRun.TopNewest | projects/data/storage-engine/src/compact.c:340-352 | The entry on top is the newest of its key over all inputs. |
| LsmMergeRun.SkipDone | projects/data/storage-engine/src/compact.c:355-398 | After skipping, every current key lies above everything emitted. |
| LsmMergeRun.MergeIsOverlay | projects/data/storage-engine/src/compact.c:355-398 | The merge, as a map, is the inputs overlaid, the highest-numbered on top. |
| LsmMergeIter.MergeIter.constructor | projects/data/storage-engine/src/compact.c:295-325 | Builds a valid heap of the valid iterators. |
| LsmMergeIter.MergeIter.SiftDownAt | projects/data/storage-engine/src/compact.c:270-292 | The in-place loop computes the specified sift. |
| LsmMergeIter.MergeIter.Next | projects/data/storage-engine/src/compact.c:355-398 | Steps past the current key in every input that has it, and terminates. |
| LsmMergeIter.MergeAll | projects/data/storage-engine/src/compact.c:579-607 | The merge loop writes ascending entries that are exactly the overlay, without tombstones at the bottommost level. |
| SstCodec.VarintRoundTrip | projects/data/storage-engine/src/sstable.c:47-69 | Every 64-bit integer is read back from its varint, whatever follows. |
| SstCodec.EntryRoundTrip | projects/data/storage-engine/src/sstable.c:234-293 | A prefix-compressed entry is read back behind the key before it. |
| SstCodec.EncodeVarint | projects/data/storage-engine/src/sstable.c:47-55 | The encoding loop. |
| SstCodec.DecodeVarintAt | projects/data/storage-engine/src/sstable.c:58-69 | The decoding loop, with its ten-byte limit and 64-bit truncation. |
| SstCodec.SharedPrefixLength | projects/data/storage-engine/src/sstable.c:38-44 | The longest common prefix. |
| SstBlock.LookupFinds | projects/data/storage-engine/src/sstable.c:708-725 | Lookup of a stored key shows its value, or its tombstone without a value. |
| SstBlock.LookupMisses | projects/data/storage-engine/src/sstable.c:726-737 | Not found if and only if no entry has the key. |
| SstBlock.ParseAt | projects/data/storage-engine/src/sstable.c:674-706 | Parsing at an entry's offset with the previous key at hand gives that entry. |
| SstBlock.SearchRestarts | projects/data/storage-engine/src/sstable.c:633-664 | The binary search never starts behind the key. |
| SstBlock.Scan | projects/data/storage-engine/src/sstable.c:666-737 | The linear scan from a restart point answers the lookup. |
| SstBlock.SearchBlock | projects/data/storage-engine/src/sstable.c:614-737 | On a written block the search answers the lookup; a wrong checksum is reported. |
| SstBloom.NoFalseNegatives | projects/data/storage-engine/src/bloom.c:93-123 | Every key added is reported, however many were added since. |
| SstBloom.SerializeRoundTrip | projects/data/storage-engine/src/bloom.c:134-190 | A filter read from its bytes is the filter written. |
| SstBloom.BloomFilter.AddKey | projects/data/storage-engine/src/bloom.c:93-106 | Sets exactly the key's bits, in place. |
| SstBloom.BloomFilter.Query | projects/data/storage-engine/src/bloom.c:109-123 | True if and only if all the key's bits are set. |
| SstBloom.ReportsExactly | projects/data/storage-engine/src/bloom.c:93-123 | A fresh filter reports a key exactly when every bit of it belongs to some key that was added; an unused filter reports nothing. |
| SstTable.IndexRoundTrip | projects/data/storage-engine/src/sstable.c:318-331 | The index parses back to its entries. |
| SstTable.FooterRoundTrip | projects/data/storage-engine/src/sstable.c:346-366 | The footer parses back field for field. |
| SstTable.FooterAccepted | projects/data/storage-engine/src/sstable.c:416-598 | A footer is accepted exactly when it carries the magic number and the checksum of the bytes before it. |
| SstFile.IndexPoints | projects/data/storage-engine/src/sstable.c:181-198 | Each index entry points at its block in the file. |
| SstFile.OpenRoundTrip | projects/data/storage-engine/src/sstable.c:416-598 | Opening a written file recovers footer, filter and index. |
| SstFile.LookupInBlock | projects/data/storage-engine/src/sstable.c:755-770 | The first block whose last key is not before the key decides the lookup. |
| SstReader.ReadIndex | projects/data/storage-engine/src/sstable.c:545-594 | The parsing loop. |
| SstReader.OpenTable | projects/data/storage-engine/src/sstable.c:416-598 | Opening, with every refusal. |
| SstReader.Reader.FindBlock | projects/data/storage-engine/src/sstable.c:755-768 | The index search finds the deciding block. |
| SstReader.Reader.Get | projects/data/storage-engine/src/sstable.c:740-789 | On a written table the answer is the lookup in its entries. |
| SstWriter.PackKeepsAll | projects/data/storage-engine/src/sstable.c:212-306 | Packing into blocks loses, repeats and reorders nothing. |
| SstWriter.BufferNeverOverflows | projects/data/storage-engine/src/sstable.c:253-293 | No block outgrows the two-block buffer when each entry fits it alone. |
| SstWriter.WrittenOpens | projects/data/storage-engine/src/sstable.c:309-387 | Whatever was written in ascending order opens as a table of exactly that. |
| SstWriter.Writer.Add | projects/data/storage-engine/src/sstable.c:212-306 | The writer's state is that of the entries so far plus one. |
| SstWriter.Writer.FlushBlock | projects/data/storage-engine/src/sstable.c:156-209 | Seals the block, appends it, indexes it and resets. |
| SstWriter.Writer.Finish | projects/data/storage-engine/src/sstable.c:309-387 | The file is blocks, index, filter and footer. |
| SstWriter.WriteThenGet | projects/data/storage-engine/src/sstable.c:740-789 | Write, open, get: exactly the entry with the key, or not found. |
| SstWriter.PackIsTight | projects/data/storage-engine/src/sstable.c:253-293 | Blocks hold as much as fits: none but a single entry exceeds the block size, and none had room for the next entry. |
| SstIter.NextShows | projects/data/storage-engine/src/compact.c:203-220 | One step shows the next entry of the table and stops exactly behind the last. |
| SstIter.TableIter.SeekToFirst | projects/data/storage-engine/src/compact.c:184-195 | The first cursor position. |
| SstIter.TableIter.Next | projects/data/storage-engine/src/compact.c:203-220 | The next cursor position, across blocks. |
| SstIter.Collect | projects/data/storage-engine/src/compact.c:184-220 | Walking the iterator yields exactly the table's entries, and terminates on any file. |
| SstIter.MergeTables | projects/data/storage-engine/src/compact.c:579-607 | Merging whole tables gives the overlay of their contents. |
| LsmLevels.LevelLookup | projects/data/storage-engine/src/level.c:238-270 | On an ordered level the file found by binary search decides; it agrees with scanning every file. |
| LsmLevels.TouchingRun | projects/data/storage-engine/src/level.c:353-375 | The files touching a range are a consecutive run. |
| LsmLevels.InsertOrdered | projects/data/storage-engine/src/level.c:66-80 | Inserting a file with a clear range keeps the level sorted and disjoint. |
| LsmManager.MergedLookup | projects/data/storage-engine/src/compact.c:579-607 | The merged file answers as a scan of the inputs from the last back, less dropped tombstones. |
| LsmManager.MergedClear | projects/data/storage-engine/src/compact.c:491-496 | The merged file's range is clear of every file left on the target level. |
| LsmReads.CompactionPlaces | projects/data/storage-engine/src/compact.c:435-669 | A compaction keeps the level invariant, also when its output is empty. |
| LsmReads.FlushPlaces | projects/data/storage-engine/src/storage.c:376-383 | A flush keeps it. |
| LsmReads.RunPlaces | projects/data/storage-engine/src/level.c:83-155 | Every level below the first is sorted and disjoint at every moment of every run of flushes and compactions. |
| LsmReads.CompactionReads | projects/data/storage-engine/src/compact.c:509-531 | A read is the same before and after a compaction if and only if the key is shadowed above, or not held by both source and target, or shown alike by both. |
| LsmReads.OldValueReturns | projects/data/storage-engine/src/compact.c:509-531 | Concrete levels on which a compaction brings an overwritten value back. |
| LsmReads.FlushReads | projects/data/storage-engine/src/storage.c:313-411 | After a flush a key reads as the flushed entry if there is one, and else as before. |
| LsmLevelManager.LevelManager.FindInsertPos | projects/data/storage-engine/src/level.c:66-80 | The binary search for the insertion place. |
| LsmLevelManager.LevelManager.AddTable | projects/data/storage-engine/src/level.c:83-155 | Where the file goes, and the next file number. |
| LsmLevelManager.LevelManager.RemoveTable | projects/data/storage-engine/src/level.c:158-190 | Removes the first file of that number. |
| LsmLevelManager.LevelManager.Get | projects/data/storage-engine/src/level.c:203-274 | Equals the exhaustive level-by-level scan. |
| LsmLevelManager.MeetingTouches | projects/data/storage-engine/src/level.c:306-316 | With an upper bound, a missing lower bound is the empty key, on every level. |
| LsmLevelManager.LevelManager.FindOverlapping | projects/data/storage-engine/src/level.c:319-386 | Exactly the files of the level that touch the range, on the first level by checking every file, where a bound may be missing on either side; none for a level that does not exist. |
| LsmLevelManager.LevelManager.Flush | projects/data/storage-engine/src/storage.c:313-383 | A non-empty memtable becomes the newest file of the first level. |
| LsmLevelManager.LevelManager.Compact | projects/data/storage-engine/src/compact.c:435-669 | The whole new state, with a valid merged output; the invariant is kept. |
| StorageWal.ReadTorn | projects/data/storage-engine/src/wal.c:204-233 | A record cut at any byte reads as the end of the log. |
| StorageWal.WholeExactly | projects/data/storage-engine/src/wal.c:101-165 | The count of whole records is exactly those that end at or before the cut. |
| StorageWal.PrefixRecovery | projects/data/storage-engine/src/wal.c:188-270 | Whatever byte the file was cut at, replay delivers exactly the whole records before it. |
| StorageWal.RecoverySucceedsExactly | projects/data/storage-engine/src/wal.c:188-270 | Replay succeeds if and only if every whole record names a non-empty key; nothing else can go wrong. |
| StorageWal.AppendBehindTearIsLost | projects/data/storage-engine/src/wal.c:55-85 | Smallest instance: a record appended behind a one-byte tear is not recovered. |
| StorageLog.Recover | projects/data/storage-engine/src/wal.c:188-270 | The recovery loop computes the specified replay, for any file. |
| StorageLog.Storage.WriteRecord | projects/data/storage-engine/src/wal.c:101-165 | Appends exactly the record's bytes. |
| StorageLog.Storage.Update | projects/data/storage-engine/src/storage.c:155-167 | Log first, then memtable; a refused key is logged all the same. The file stays the exact log if and only if it was and the record length does not wrap. |
| StorageLog.Storage.Reopen | projects/data/storage-engine/src/storage.c:104-127 | After a cut at any byte, the memtable is that of the whole records; the file is again the exact log of those if and only if the cut fell between two records. |
| StorageLog.EffectShows | projects/data/storage-engine/src/memtable.c:30-48 | After any run of updates a key shows its last put, is deleted if its last update was a delete, and is absent if it was never updated. |
| StorageLog.EffectKeeps | projects/data/storage-engine/src/memtable.c:44-48 | The empty key is never there, and a deleted key keeps its value. |
| StorageTear.ReplayBehind | projects/data/storage-engine/src/wal.c:188-270 | Whole records in front of any bytes replay as their updates, and then those bytes. |
| StorageTear.ShortFile | projects/data/storage-engine/src/wal.c:188-270 | A file too short for a record of a key leaves that key alone, whatever its bytes are. |
| StorageTear.ReadAcross | projects/data/storage-engine/src/wal.c:202-262 | The record read across a tear at any byte is not the one appended, and leaves too few bytes for it behind. |
| StorageTear.TornReplay | projects/data/storage-engine/src/wal.c:188-270 | Behind any torn record there is an update that replay does not deliver. |
| StorageTear.AppendSurvivesExactly | projects/data/storage-engine/src/wal.c:55-85 | Every update made after reopening a cut log is recovered the next time if and only if the reopening succeeded and the cut fell between two records. |
| StorageReads.GetExactly | projects/data/storage-engine/src/storage.c:170-206 | A read through memtable and levels is right except exactly for a key marked deleted in the memtable that the levels still show. |
| StorageReads.FlushMeans | projects/data/storage-engine/src/storage.c:313-411 | A flush changes nothing about what the updates mean, and right after it every read is right. |
| StorageReads.RunMeans | projects/data/storage-engine/src/storage.c:155-225 | After any run of updates and flushes the database holds, for every key, the last put or the absence left by the last delete. |
| StorageReads.ReadsExactly | projects/data/storage-engine/src/storage.c:170-206 | After any such run a read returns just that, except exactly for a key deleted since the last flush that had a value at that flush. |
| StorageReads.DeletedKeyReturns | projects/data/storage-engine/src/storage.c:170-206 | The shortest instance: put, flush, delete, and the value is back. |
| StorageReads.Database.GetKey | projects/data/storage-engine/src/storage.c:170-206 | The read as the program makes it. |
| StorageReads.Database.FlushTable | projects/data/storage-engine/src/storage.c:313-411 | The memtable becomes the newest first-level file and is emptied. |
| SkipLinks.NextGrown | projects/data/storage-engine/src/skiplist.c:196-199 | After an insertion every link leads where the heights say. |
| SkipLinks.WalkIsSublist | projects/data/storage-engine/src/skiplist.c:196-199 | Each level visits exactly the nodes high enough for it, in list order. |
| SkipList.List.Search | projects/data/storage-engine/src/skiplist.c:148-159 | Finds the last position before the key on every level. |
| SkipList.List.LinkIn | projects/data/storage-engine/src/skiplist.c:196-199 | Re-links every level of the new node through it. |
| SkipList.List.Put | projects/data/storage-engine/src/skiplist.c:144-207 | The sorted map with the key set, for any node height; empty keys are refused. |
| SkipList.List.Get | projects/data/storage-engine/src/skiplist.c:210-238 | The value if the key is there and not deleted. |
| SkipList.List.Delete | projects/data/storage-engine/src/skiplist.c:241-280 | Marks the key deleted, keeping its old value, or inserts a tombstone. |
| SkipList.List.Contains | projects/data/storage-engine/src/skiplist.c:283-298 | Present, deleted or not. |
| SkipList.List.Seek | projects/data/storage-engine/src/skiplist.c:336-350 | The first node at or after the key; the empty key leaves the iterator where it was. |
| SkipList.List.Entries | projects/data/storage-engine/src/skiplist.c:329-362 | Walking the lowest level yields every cell once, ascending. |
| LruSpec.EvictIsLongestFit | projects/data/storage-engine/src/cache.c:161-169 | Eviction keeps the longest prefix, by recency, that fits. |
| LruSpec.RunIsLru | projects/data/storage-engine/src/cache.c:172-265 | After any run: no key twice, items in order of last use, each holding the value last put, sizes within capacity. |
| LruSpec.WithoutExactly | projects/data/storage-engine/src/cache.c:233-246 | Removal takes out the key's item and no other. |
| LruSpec.TouchExactly | projects/data/storage-engine/src/cache.c:172-196 | A hit changes no item and puts the one asked for in front; a miss changes nothing. |
| LruSpec.PutExactly | projects/data/storage-engine/src/cache.c:198-230 | An item that fits is in front right after its put, followed by as many of the others as fit, most recent first; one that does not fit is not kept, nor what its key held. |
| LruSpec.PutIsInFront | projects/data/storage-engine/src/cache.c:198-230 | After any run, an item that fits and was put last comes first, also after a hit. |
| LruSpec.GoneExactly | projects/data/storage-engine/src/cache.c:233-265 | An invalidation takes out its key and nothing else, clearing takes out everything. |
| LruSpec.PutDropsNothing | projects/data/storage-engine/src/cache.c:198-230 | With room for everything a put drops nothing. |
| LruCache.Cache.LruRemove | projects/data/storage-engine/src/cache.c:96-109 | Unlinks one entry from the doubly linked list. |
| LruCache.Cache.LruInsertHead | projects/data/storage-engine/src/cache.c:112-122 | Links an entry in at the front. |
| LruCache.Cache.HashFind | projects/data/storage-engine/src/cache.c:125-137 | Finds the key's entry, or shows that no entry has it. |
| LruCache.Cache.HashInsert | projects/data/storage-engine/src/cache.c:140-144 | Adds one entry to its chain. |
| LruCache.Cache.HashRemove | projects/data/storage-engine/src/cache.c:147-158 | Takes one entry out of its chain. |
| LruCache.Cache.EvictIfNeeded | projects/data/storage-engine/src/cache.c:161-169 | Evicts as specified until the size fits. |
| LruCache.Cache.Get | projects/data/storage-engine/src/cache.c:172-195 | Data and order after a hit or a miss, and the counters. |
| LruCache.Cache.Put | projects/data/storage-engine/src/cache.c:198-230 | Replaces, evicts and inserts as specified; list, chains and account stay in step. |
| LruCache.Cache.Invalidate | projects/data/storage-engine/src/cache.c:233-245 | Drops the key. |
| LruCache.Cache.Clear | projects/data/storage-engine/src/cache.c:248-265 | Empties list and chains, keeps the statistics. |
| HashRing.WalkByDistance | projects/distributed/dist-kv/src/hash_ring.c:216-234 | The walk from a position meets virtual nodes by increasing clockwise distance. |
| HashRing.RemoveMovesOnlyItsKeys | projects/distributed/dist-kv/src/hash_ring.c:182-213 | Removing a node deletes it from every preference list and changes nothing else, also with equal hashes. |
| HashRing.JoinOnlyInserts | projects/distributed/dist-kv/src/hash_ring.c:139-180 | A joining node is only ever inserted into preference lists. |
| HashRing.LeaveMovesOnlyItsKeys | projects/distributed/dist-kv/src/hash_ring.c:182-213 | Keys the node did not own keep their primary. |
| HashRing.JoinMovesOnlyToNew | projects/distributed/dist-kv/src/hash_ring.c:139-180 | Keys change their primary only to the new node. |
| HashRing.MinimalMovementExactly | projects/distributed/dist-kv/src/hash_ring.c:65-71 | Minimal movement holds for every order sorting may pick if and only if virtual nodes at the same position share a node. |
| HashRingTable.PreferenceIsAllNodes | projects/distributed/dist-kv/src/hash_ring.c:246-281 | Every node appears exactly once in every preference list. |
| HashRingTable.Ring.constructor | projects/distributed/dist-kv/src/hash_ring.c:80-118 | Configuration defaults and clamping. |
| HashRingTable.Ring.AddNode | projects/distributed/dist-kv/src/hash_ring.c:139-180 | Status, nodes, and the effect on every preference list. |
| HashRingTable.Ring.RemoveNode | projects/distributed/dist-kv/src/hash_ring.c:182-213 | Status, nodes, and the effect on every preference list. |
| HashRingTable.Ring.FindVNode | projects/distributed/dist-kv/src/hash_ring.c:216-234 | The first virtual node at or after the position, wrapping around; -1 on an empty ring. |
| HashRingTable.Ring.GetNode | projects/distributed/dist-kv/src/hash_ring.c:236-244 | The primary, or 0 on an empty ring. |
| HashRingTable.Ring.GetReplicas | projects/distributed/dist-kv/src/hash_ring.c:246-281 | Exactly min(replication factor, limit, node count) distinct nodes, the first of the preference list, starting with the primary. |
| HashRingTable.VNodesPlaced | projects/distributed/dist-kv/src/hash_ring.c:169-174 | Replica i of a node sits at the hash of the node and i. |

## Left out

- Compiler: function calls, parameters and several functions; parsing and type checking; the machine's limits on memory. The execution loop is cut off after a number of steps given as a parameter.
- Raft: commit safety (a zero-entry request is acknowledged without the previous-entry check, and the commit index can fall), snapshots, compaction, membership, read index, leadership transfer, apply callbacks, entry types and the file format of saved state. After a crash the saved term and vote are restored and the log may be anything.
- RaftLog.LogMatching: for runs without crashes, since the order in which log entries reach the disk is not modelled.
- simple-fs: wake-ups and liveness in `begin_op` and `end_op`; the buffer cache's reference counts (the cache is transparent); inode cache, locks, directories, paths, shell. The on-disk inode table is a list of inodes, not bytes. Files with holes, which formatting can produce when the root directory fills its last block exactly, are outside the invariant, and so are files copied in while formatting.
- FsFileSystem.FileSystem.Write: does not count the log blocks a write uses, and says nothing about which blocks of a failed write stay allocated beyond the file's size.
- Transaction manager: crashes inside a commit, garbage collection, storage errors, timestamps beyond 64 bits.
- MvccManager.TxManager.TxGet: for active transactions only, since a finished transaction's handle is freed.
- FsReservation.OpLog.Write: writes beyond an operation's budget of new blocks, and writes by a thread outside any operation while another thread is in one (the code logs them on the other's reservation).
- SSTable: I/O and allocation failures; entries larger than the block buffer; an index key length that overflows 64-bit addition, which the model takes for an overlong key.
- SstIter.MergeTables: for tables the writer produced.
- Storage engine: manifest recovery, file sizes and the choice of the level to compact, memory accounting of the skip list, the hit-rate figure.
- Recovery of logs that hold a record longer than its 32-bit length field: the file's bytes are modelled, what replay makes of them is not.
- Closing and reopening the log around a flush, and file-system synchronisation.
- Hash ring: distribution statistics, and the index stored with each virtual node, which nothing reads.
- mini-os, the gossip and replication layers of dist-kv, tiny-interpreter, the web interface and the benchmarks.
