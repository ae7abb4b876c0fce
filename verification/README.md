# tokenweir: a verified model

tokenweir meters LLM usage: producers emit usage records, a buffered client hands them to a sink, migrations
and a reconciler keep the store's schema in shape, and a Claude Code hook turns transcripts into records. This
project models the parts of it whose correctness spans many calls, many sessions or every possible input, and
proves what they promise. `dafny verify dfyconfig.toml` checks all of it.

| modules | what they model |
|---|---|
| `Catalog`, `Reconcile`, `PlanTruth`, `Shares`, `TableSettling`, `Convergence`, `ReconcileLimits`, `ReconcileWitnesses` | a PostgreSQL schema with rows, the planner that compares it with the shipped one, `apply`, exactly what a plan says, exactly when it executes and converges, and a schema for every way it does not |
| `Emitter`, `EmitterProtocol` | the buffered emitter's monitor, as a class and as an interleaving of its critical sections |
| `Direct` | the direct sink, alone and under the emitter |
| `Amqp`, `AmqpBounds` | the reconnecting AMQP sink and bounds over its whole runs |
| `Scanner` | the SQL comment scanner against a token grammar |
| `Migrator`, `MigratorProtocol`, `MigratorRuns` | one migration run, and any number of them at once |
| `Transcript`, `Hook` | the transcript scan and the hook's baseline over a session |
| `Parity`, `ParityAgreement` | the parity harness's second grouping of a transcript, and its agreement with the scan |
| `Text`, `Phases`, `PhaseLabels`, `PhaseSpellings`, `Attribution` | the phase taxonomy, and attribution exported and read back |
| `RateLimit` | the rate-limited warner |
| `Base`, `Numerals` | shared vocabulary |

Where the source updates an object in place the model is a class. Each of its methods is proved against a
function on a value view of the object (`View`), and the theorems about whole runs are about those functions.
Where the source computes, the model is a function. Threads, sessions and producers become atomic steps, one
for each region held under a lock or each statement sent to the server, taken in any order.

## Where the code does not keep a promise

The code is modelled as it is. Each of these has a lemma that shows the failure and one that says exactly when
the promise holds.

- **Reconciliation.** An all-automatic plan is meant to execute and to leave nothing to plan. The planner does not
  ask whether a new index's name is taken elsewhere in the schema, whether rows repeat under a new UNIQUE index,
  whether the exempt `gateway_usage.id` that an index or a view needs is there, whether a new constraint is named
  like the primary key, whether an absent view's name belongs to a type, whether what stands in a table's place is
  a table and, if not, takes what is planned for it, or whether a default to be altered is a generated column's
  expression; and it adds a generated column whose expression passes for a constant as an ordinary one with that
  default. `ReconcileLimits.ExecutesIff` proves that a plan executes if and only if none of the first seven happens
  (`Convergence.PlanFits`), and `ReconcileLimits.ConvergesIff` that it leaves nothing to plan if and only if the last
  does not happen either (`Convergence.NoGeneratedColumnAdded`). `ReconcileWitnesses` has a schema for each, where it
  alone happens and the plan breaks its promise.
- **Rate card.** A row with no model makes planning raise a `TypeError` while it joins names for its message:
  `ReconcileLimits.RateCardPlanRaises` says when, `ReconcileWitnesses.RowsWithoutModelRaise` and
  `ReconcileWitnesses.SubscriptionWithoutModelRaises` give the two kinds of rows.
- **Migrations.** Only ordinary exceptions roll a migration back. A `KeyboardInterrupt` between a migration's SQL
  and its row leaves the transaction open, and giving up the advisory lock then commits it: the migration is
  applied, not recorded, and applied again by the next run (`MigratorRuns.InterruptionTears`). A state table that
  agrees with what was executed is equivalent to a run in which no session takes the lock, or settles after giving
  it up, with a migration's SQL run and its row not yet inserted (`MigratorProtocol.ConsistentIff`).
- **Phases.** `normalize_phase` is documented never to raise; Python refuses to convert a numeral of more than 4300
  digits, so it does on exactly that family (`PhaseLabels.NormalizeRaisesIff`), which every kind has
  (`PhaseLabels.LongNumeralRaises`), `review` and 4301 ones for instance (`PhaseLabels.ReviewOnesRaise`).
  `is_canonical_phase` accepts a label with a newline after it (`PhaseLabels.NewlinePassesForCanonical`,
  `PhaseLabels.CanonicalIsLabelIff`).
- **Attribution.** A `pricing_mode` of `None` comes back as a subscription. The comments in `orchestrator.py` say
  Python's spaces and the contract's blanks differ by U+0085; in `contract.py` every Python space is a blank, so an
  accepted text always comes back, stripped and still not blank. `Attribution.ReadsBack` says what every accepted
  argument comes back as.
- **Hook.** The repository's README says three turns of 100 tokens that cannot be remembered report 100, 300 and
  600. They report 100, 200 and 300 (`Hook.EvenTurnsReport`).
- **Parity.** The harness agrees with the scan if and only if no response id begins with its reserved prefix
  (`ParityAgreement.AgreeIff`).

## Model

| member | source | states |
|---|---|---|
| Catalog.ExecutionKeepsData | src/tokenweir/reconcile.py:45-52 | Whatever statements are executed, in whatever order, no table, column or row disappears, no stored cell changes, and a cell that appears holds what some executed ADD COLUMN fills in. |
| Reconcile.CompareColumns | src/tokenweir/reconcile.py:1086-1342 | The column loop reports, for each reference column not skipped or exempt, the first of missing, generated, identity, type, then nullability and default; then the unwritable extras of the usage table, in order. |
| Reconcile.CompareIndexes | src/tokenweir/reconcile.py:1360-1417 | Exactly the reference indexes whose shape is absent are reported, by hand when the name is taken on this table. |
| Reconcile.CompareConstraints | src/tokenweir/reconcile.py:1483-1625 | Exactly the reference constraints whose definition is absent are reported, automatic only for a CHECK whose columns exist, whose name is free and which every row satisfies. |
| Reconcile.CompareTable | src/tokenweir/reconcile.py:1781-1871 | One table's share of the plan in order: rate card, columns, key, indexes, constraints; it fails where the rate-card message cannot be built. |
| Reconcile.CompareRelation | src/tokenweir/reconcile.py:1770-1871 | A reference view is compared as a view and everything else as a table. |
| Reconcile.MakePlan | src/tokenweir/reconcile.py:1760-1871 | The plan is the relations' shares, tables first, and planning raises exactly when one share does. |
| Reconcile.PlanOverFails | src/tokenweir/reconcile.py:1760-1871 | A relation that cannot be planned makes the whole plan fail, whatever follows it. |
| PlanTruth.PlanTells | src/tokenweir/reconcile.py:1760-1871 | A plan holds a discrepancy, with its resolution and its statements, if and only if that is so of some relation of the reference as it stands: every finding is told on columns, rows and names alone. |
| PlanTruth.PlanRaisesIff | src/tokenweir/reconcile.py:961-1000 | Planning raises if and only if a rate card without effective_from has its key columns and a repeated absent model, or no repeated model and a subscription without one. |
| PlanTruth.RateCardAutomaticIff | src/tokenweir/reconcile.py:921-1083 | Where planning does not raise, a rate card without effective_from is re-keyed by the tool if and only if its other key columns are there and hold no NULL, no two rows have the same model, no row is a subscription's, and a baseline is given. |
| PlanTruth.CardSays | src/tokenweir/reconcile.py:921-1083 | Each refusal of a rate card comes exactly when its cause holds and none before it does, and lists exactly the repeated models, or the models of a lone subscription row. |
| PlanTruth.ListedColumns | src/tokenweir/reconcile.py:935-1047 | The columns a refusal lists are exactly the key columns that are not there, or those that hold NULL. |
| Reconcile.Connection.constructor | src/tokenweir/reconcile.py:1874-1957 | A connection starts at the schema it is given. |
| Reconcile.Connection.ExecuteEach | src/tokenweir/reconcile.py:1939-1957 | Statements are executed in order up to the first that fails, which fails them all. |
| Reconcile.Connection.Apply | src/tokenweir/reconcile.py:1912-1957 | Either every statement of the very plan that was read, made again under its own baseline with every item automatic, is executed and committed, or nothing changes; a disagreeing baseline, a failing re-plan, a stale plan, a manual item and a failing statement are each reported exactly when they happen and none before does. |
| TableSettling.TableSettles | src/tokenweir/reconcile.py:921-1625 | An all-automatic share of a plan that fits the live table executes in order, and the table it leaves has the key, indexes and constraints of the reference and every column, a generated one that is added as one with a default. |
| TableSettling.QuietIffSettled | src/tokenweir/reconcile.py:1086-1625 | A table yields no discrepancies, whatever the baseline, if and only if it has every non-exempt column, the key, indexes and constraints of the reference, and no column the writer cannot fill. |
| TableSettling.OnlyDefaultsDiffer | src/tokenweir/reconcile.py:1250-1285 | An automatic share that changes defaults alone belongs to a table that differs in nothing else. |
| TableSettling.IndexesReady | src/tokenweir/reconcile.py:1360-1417 | After the column statements every missing index's columns are there, and its rows, back-fills included, are those predicted from the live table. |
| TableSettling.RateCardSettles | src/tokenweir/reconcile.py:1056-1083 | The rate card's four statements execute: back-fill, drop the default, drop the old key if any, add the new one. |
| TableSettling.ColumnSettles | src/tokenweir/reconcile.py:1097-1285 | What is planned for one column executes and leaves the reference column, an added generated one as one with a default, and touches no other. |
| TableSettling.MissingIdentityIsByHand | src/tokenweir/reconcile.py:806-827 | A missing identity column, which is NOT NULL and has no default, is always left to a human. |
| Convergence.OrderedTablesFirst | src/tokenweir/reconcile.py:703-713 | Execution order is a permutation of the reference, every table before everything else, each group in alphabetical order. |
| Convergence.TextLeIs | src/tokenweir/reconcile.py:703-713 | The order of names is alphabetical: a beginning first, otherwise by the first character that differs. |
| Convergence.Converges | src/tokenweir/reconcile.py:1760-1871 | For every well-formed reference and schema with rows: a plan with nothing manual that fits the schema executes without failing, and where it adds no generated column planning its result, under any baseline, finds nothing. |
| ReconcileLimits.ReconciliationKeepsData | src/tokenweir/reconcile.py:45-52 | Executing a plan loses nothing, and a new cell holds exactly its reference column's constant default or NULL, the one fixed back-fill or, in the rate card's effective_from, the operator's baseline. |
| ReconcileLimits.ExecutesIff | src/tokenweir/reconcile.py:1760-1871 | A plan with nothing manual executes if and only if, in the live schema, no missing index's name is taken, unless by a primary key dropped before, no rows repeat under a missing UNIQUE index once back-filled, every exempt column an index or view to be made needs is there, no constraint to be added is named like the standing primary key, no generated column's expression is to change, a view in a table's place differs in defaults alone and anything else there in nothing, and no view to be made is named like a type. |
| ReconcileLimits.UnordinaryColumnNeverConverges | src/tokenweir/reconcile.py:805-836 | Whatever planned statements execute, a missing identity or generated column, or one with another default, is still reported. |
| ReconcileLimits.ConvergesIff | src/tokenweir/reconcile.py:1760-1871 | A plan with nothing manual executes and leaves nothing to plan if and only if it fits the live schema in that sense and adds no generated column. |
| ReconcileWitnesses.TakenIndexNameBreaks | src/tokenweir/reconcile.py:1371-1390 | A schema where something else has a missing index's name: nothing is manual, every other condition holds, and the plan fails. |
| ReconcileWitnesses.IndexNamedLikeKeyBreaks | src/tokenweir/reconcile.py:1371-1390 | The same where the table's own primary key has that name. |
| ReconcileWitnesses.RepeatedRowsBreak | src/tokenweir/reconcile.py:1360-1417 | The same where two rows repeat under a missing UNIQUE index. |
| ReconcileWitnesses.AbsentExemptColumnBreaks | src/tokenweir/reconcile.py:1098-1099 | The same where the usage table has no `id` and an index over it is missing. |
| ReconcileWitnesses.KeyNameClashBreaks | src/tokenweir/reconcile.py:1483-1625 | The same where a constraint to be added has the primary key's name. |
| ReconcileWitnesses.StandingViewBreaks | src/tokenweir/reconcile.py:1781-1832 | The same where a view stands in the place of a table without a key and lacks an index. |
| ReconcileWitnesses.StandingViewTakesDefaults | src/tokenweir/reconcile.py:1250-1285 | Where that view differs in a default alone, the plan is not empty and executes. |
| ReconcileWitnesses.GeneratedDefaultBreaks | src/tokenweir/reconcile.py:483-500 | The same where a generated column's expression differs, which the planner reads as a default. |
| ReconcileWitnesses.TypeNamedLikeViewBreaks | src/tokenweir/reconcile.py:453-458 | The same where an absent view is named like a type, which `to_regclass` does not find. |
| ReconcileWitnesses.ViewOfAbsentColumnBreaks | src/tokenweir/reconcile.py:1628-1640 | The same where an absent view selects the `id` the usage table does not have. |
| ReconcileWitnesses.AddedGeneratedIsLost | src/tokenweir/reconcile.py:805-819 | A schema lacking a generated column whose expression passes for a constant: the plan fits and executes, and planning its result still finds a difference. |
| ReconcileLimits.RateCardPlanRaises | src/tokenweir/reconcile.py:961-1000 | Planning raises exactly when the key columns exist and either two rows lack a model, or none repeats and the one row without a model is a subscription's. |
| ReconcileWitnesses.RowsWithoutModelRaise | src/tokenweir/reconcile.py:961-1000 | A rate card with two rows that have no model: planning raises, whatever the baseline. |
| ReconcileWitnesses.SubscriptionWithoutModelRaises | src/tokenweir/reconcile.py:961-1000 | A rate card whose one row has no model and is a subscription's: planning raises too. |
| Emitter.BufferedEmitter.constructor | src/tokenweir/emitter.py:238-294 | A new client is empty, open, with a live worker and all counters at 0. |
| Emitter.BufferedEmitter.Offer | src/tokenweir/emitter.py:464-494 | A record enters at the tail exactly when the client is open and below its bound; any other offer moves exactly one counter: not a record, closed, or full, in that order. |
| Emitter.BufferedEmitter.TakeBatch | src/tokenweir/emitter.py:555-559 | The batch is the first records of the buffer, at most `batch_size`, and batch and rest make the old buffer. |
| Emitter.BufferedEmitter.Count | src/tokenweir/emitter.py:605-613 | Only the counter of that outcome moves, by the number given. |
| Emitter.BufferedEmitter.ClearInFlight | src/tokenweir/emitter.py:505-507 | Only the in-flight size changes, to 0. |
| Emitter.BufferedEmitter.Exit | src/tokenweir/emitter.py:520-523 | The worker is marked dead and nothing is in flight; buffer and counters stand. |
| Emitter.BufferedEmitter.CloseSink | src/tokenweir/emitter.py:587-603 | Only the first caller is told to close the sink. |
| Emitter.BufferedEmitter.Close | src/tokenweir/emitter.py:370-380 | The first call closes and stops, every later one changes nothing. |
| Emitter.BufferedEmitter.Abandon | src/tokenweir/emitter.py:391-395 | The buffer is emptied and exactly its length is counted as dropped at close. |
| Emitter.BufferedEmitter.DeliverEach | src/tokenweir/emitter.py:578-585 | One call per record: delivered and failed grow by the calls that returned and the calls that raised, together by the batch. |
| Emitter.BufferedEmitter.Deliver | src/tokenweir/emitter.py:561-585 | A batch-capable sink's one call decides the whole batch, otherwise each record is decided alone. |
| Emitter.BufferedEmitter.Turn | src/tokenweir/emitter.py:496-507 | One turn accounts for the whole batch it takes and for nothing else. |
| Emitter.BufferedEmitter.Run | src/tokenweir/emitter.py:496-524 | A closed client's worker hands over the buffer in order in ceil(buffered / batch size) non-empty batches, accounts for every record, closes the sink and dies. |
| Emitter.CeilIs | src/tokenweir/emitter.py:555-558 | The number of batches it takes is the ceiling of the quotient. |
| EmitterProtocol.StepKeepsInv | src/tokenweir/emitter.py:370-585 | Every step of every participant keeps conservation, counters, bounds, lifecycle and the rules about sink calls. |
| EmitterProtocol.NobodyWaits | src/tokenweir/emitter.py:296-328 | In every state a record can be offered, a flush begun and the client closed; a waiting flush, a close or a full batch keeps the worker from lingering. |
| EmitterProtocol.RunKeepsInv | src/tokenweir/emitter.py:370-585 | So does every interleaving, and the accepted sequence and the sink calls only ever grow. |
| EmitterProtocol.NothingLostOrDuplicated | src/tokenweir/emitter.py:464-559 | In every reachable state the accepted records are, in order, the resolved, the rest of the batch in hand, the buffer and the abandoned; the counters add up; a crash loses at most one batch and only with a dead worker. |
| EmitterProtocol.RetentionBounded | src/tokenweir/emitter.py:482-559 | At most `max_buffer` records are buffered, and at most `max_buffer + batch_size` are held. |
| EmitterProtocol.FlushTellsTruth | src/tokenweir/emitter.py:411-445 | A flush that returns True has every record accepted before the call delivered, failed, abandoned by a close or lost with a dead worker. |
| EmitterProtocol.DrainedIff | src/tokenweir/emitter.py:411-445 | In every reachable state a flush finds the client drained if and only if every accepted record is resolved or abandoned and the worker has put down its batch. |
| EmitterProtocol.SinkClosedOnceAndLast | src/tokenweir/emitter.py:587-603 | The sink is closed at most once, nothing is called on it afterwards, and no call hands over an empty or oversized batch. |
| EmitterProtocol.CloseRunsOnce | src/tokenweir/emitter.py:329-397 | Over every run one close is effective, the first: its call waits exactly if it is to and neither end of waiting has come, and only a wait that timed out abandons, once. |
| EmitterProtocol.CallsAreCounted | src/tokenweir/emitter.py:411-603 | Over every run the waiting flushes are those that came and have not left, each free to leave, and the sink is called once per delivery, per crash in a call, and for its close. |
| EmitterProtocol.WorkerNeverStuck | src/tokenweir/emitter.py:526-559 | The worker of a closed client always has a step of its own until it is gone. |
| EmitterProtocol.CloseDrains | src/tokenweir/emitter.py:329-397 | After a close, with a sink that returns or raises exceptions, at most ceil(buffered / batch size) more full batches are taken, in a bounded number of worker steps, and a gone worker leaves an empty buffer with everything delivered, failed or abandoned before. |
| Direct.DirectSink.constructor | src/tokenweir/sink.py:211-224 | A new sink has written and dropped nothing. |
| Direct.DirectSink.EmitBatch | src/tokenweir/sink.py:247-311 | Every offered value is written or dropped; an open sink whose store takes the batch stores and counts exactly its usage records, a closed or failing one nothing. |
| Direct.RecordsAre | src/tokenweir/sink.py:247-311 | The usage records of a batch are kept in order and everything else is left out. |
| Direct.DirectSink.Close | src/tokenweir/sink.py:313-340 | Only the first close is a close, and counters stand. |
| Direct.ReplayAccounts | src/tokenweir/sink.py:247-311 | Over any calls, written plus dropped is what was handed over, and the store is the concatenation of the batches that were taken. |
| Direct.TwoLayersAgree | src/tokenweir/sink.py:247-311 | An emitter over a direct sink without a crash: in every quiet state `failed` is 0, `delivered` is the sink's written plus dropped, and the store holds whole batches of accepted records in order. |
| RateLimit.RateLimitedWarner.constructor | src/tokenweir/_ratelimit.py:63-75 | A new warner holds nothing back; a negative interval is 0. |
| RateLimit.RateLimitedWarner.Warn | src/tokenweir/_ratelimit.py:84-121 | A call inside its key's window is only counted; any other is logged with the count held for its key, which is cleared, and opens a new window. |
| RateLimit.KeysDoNotInterfere | src/tokenweir/_ratelimit.py:84-121 | Over any run and any keys, one key's lines and held count are those of a warner that saw only that key's calls. |
| RateLimit.EveryCallAccounted | src/tokenweir/_ratelimit.py:84-121 | Per key, calls are lines plus the suppressions the lines report plus those still held. |
| RateLimit.LinesAreSpaced | src/tokenweir/_ratelimit.py:84-121 | Any two lines of one key are at least the interval apart. |
| RateLimit.WindowReopens | src/tokenweir/_ratelimit.py:84-121 | After any run a call gets a line if and only if its key has none yet, an interval has passed since its last, or there is no interval; the line reports every call of the key since. |
| Amqp.AMQPSink.constructor | src/tokenweir/amqp.py:398-445 | A sink handed its channel cannot reconnect and has counted nothing. |
| Amqp.AMQPSink.FromUrl | src/tokenweir/amqp.py:447-507 | A sink opened from a URL owns one connection, can reconnect, and has made one dial outside the cap's count. |
| Amqp.AMQPSink.MayDial | src/tokenweir/amqp.py:647-674 | A dial is refused exactly when the window is open and full; only the two window fields change. |
| Amqp.AMQPSink.ReleaseConnection | src/tokenweir/amqp.py:751-758 | Exactly an owned connection is closed. |
| Amqp.AMQPSink.InvalidateConnection | src/tokenweir/amqp.py:676-749 | A sink that cannot reconnect is left alone; otherwise the connection is closed and forgotten, the interval is armed from the second unproductive connection in a row on, and the publish count restarts. |
| Amqp.AMQPSink.FindChannel | src/tokenweir/amqp.py:585-645 | A channel is dialled for only past the deadline and under the cap; a failed dial arms the interval after it ended. |
| Amqp.AMQPSink.EmitRecord | src/tokenweir/amqp.py:524-568 | One emit is one publish or one drop: a publish exactly when the value is a record, the sink is open, the publish returns, and a channel was held or the dial this emit was allowed connected; a failed publish invalidates the connection. |
| Amqp.AMQPSink.CloseSink | src/tokenweir/amqp.py:570-581 | The first close releases the connection, later ones change nothing. |
| Amqp.DialsWhenDue | src/tokenweir/amqp.py:585-645 | A dial is made exactly by a reconnecting sink without a channel, past its deadline and under the cap; it yields a channel exactly when it connects, and otherwise moves the deadline to an interval after it ended. |
| Amqp.LossIsJudged | src/tokenweir/amqp.py:676-749 | Losing a connection gives it up, and moves the deadline exactly from the second loss in a row without a publish on. |
| AmqpBounds.NothingLeaks | src/tokenweir/amqp.py:524-581 | In every reachable state of either kind of sink published plus dropped is the emits, at most one owned connection is open and none after close, and a held channel means the armed deadline is past. |
| AmqpBounds.CountersTellTheTruth | src/tokenweir/amqp.py:514-568 | Over every run `published` grows by exactly the records that a channel took, and `dropped` by all the others that were offered. |
| AmqpBounds.FreshConnectionIsUnproven | src/tokenweir/amqp.py:636-645 | An emit that obtains a connection dialled exactly once, and the connection's publish count is exactly what that emit published. |
| AmqpBounds.RecoversAtOnce | src/tokenweir/amqp.py:726-734 | Losing a connection that had published, the next record is dialled for at once if and only if the cap allows. |
| AmqpBounds.DialsAreCapped | src/tokenweir/amqp.py:151-157 | For every run, interval and n, a half-open span of n intervals holds at most (n + 1) * MAX_DIALS_PER_INTERVAL - 1 dials, the opening one included. |
| AmqpBounds.CapIsReached | src/tokenweir/amqp.py:151-157 | That bound is exact: for every interval and every n > 0 some run puts (n + 1) * MAX_DIALS_PER_INTERVAL - 1 dials into a span of n intervals. |
| AmqpBounds.UnproductiveDialsAreSpaced | src/tokenweir/amqp.py:610-645 | In any stretch of any run in which nothing is published, at most one pair of consecutive dials is closer than the interval. |
| Scanner.OneReading | src/tokenweir/migrations/__init__.py:99-154 | The token grammar is unambiguous: a text has at most one reading. |
| Scanner.BlocksNest | src/tokenweir/migrations/__init__.py:127-138 | A block comment goes on while its opening marks outnumber its closing marks and ends where they are equal or, unclosed, with the text. |
| Scanner.SkipBlock | src/tokenweir/migrations/__init__.py:127-138 | The depth loop ends at the mark that balances the comment's opening, or at the end of an unclosed one. |
| Scanner.SkipLiteral | src/tokenweir/migrations/__init__.py:139-150 | A literal ends at the first quote not doubled, or at the end of an unclosed one. |
| Scanner.SkipLine | src/tokenweir/migrations/__init__.py:123-126 | A line comment ends before the newline, which stays. |
| Scanner.StripComments | src/tokenweir/migrations/__init__.py:99-154 | Every input has a reading, and the output is that reading with each comment replaced by one space. |
| Scanner.NothingElseIsLost | src/tokenweir/migrations/__init__.py:99-154 | The tokens are the whole input in order, so only comment text is lost. |
| Scanner.LiteralsStay | src/tokenweir/migrations/__init__.py:99-117 | A literal's or a statement's text stands whole in the output whatever it contains, comment marks included. |
| Scanner.StripTwice | src/tokenweir/migrations/__init__.py:99-154 | An input strips to one text only, that text strips to itself and to nothing else, and no reading of it has a comment. |
| Migrator.Connection.Commit | src/tokenweir/migrations/__init__.py:685-685 | What was open becomes what is committed. |
| Migrator.Connection.Rollback | src/tokenweir/migrations/__init__.py:686-688 | What was open is gone and what was committed stands. |
| Migrator.Connection.ApplyEach | src/tokenweir/migrations/__init__.py:666-690 | Each migration is executed and recorded in one transaction, in order, up to the first that fails, of which nothing stays. |
| Migrator.Connection.Apply | src/tokenweir/migrations/__init__.py:628-692 | The exact database and result: a refusal changes nothing, and without permission a call that is not refused stops as destructive exactly when a shipped migration without a row is; otherwise exactly the outstanding migrations before the first failing one are executed and recorded. |
| Migrator.Connection.Status | src/tokenweir/migrations/__init__.py:695-719 | A report from one read: what is applied and what is outstanding, or the refusal. |
| Migrator.RefusedIff | src/tokenweir/migrations/__init__.py:391-462 | A run is refused exactly for a version in the table that is not shipped or, when verifying, a recorded checksum that is not the file's; a row without a checksum is never the reason. |
| Migrator.OutstandingIs | src/tokenweir/migrations/__init__.py:465-485 | The outstanding migrations are the shipped ones without a row, in ascending order. |
| Migrator.DoneIs | src/tokenweir/migrations/__init__.py:695-719 | What a report calls applied is exactly the shipped migrations with a row, in ascending order. |
| Migrator.RecordKeys | src/tokenweir/migrations/__init__.py:679-684 | Recording migrations adds exactly their versions. |
| Migrator.RecordIs | src/tokenweir/migrations/__init__.py:679-684 | A recorded migration's row holds its own checksum, and every other row stands. |
| Migrator.RunsStayVerified | src/tokenweir/migrations/__init__.py:391-462 | A table that passes a checksum verification passes it after any run over it, however far that got. |
| Migrator.RunsResume | src/tokenweir/migrations/__init__.py:545-553 | After a run that stops at a migration exactly that one and the later ones are outstanding; after one that does not stop, nothing is. |
| MigratorProtocol.RunKeepsInv | src/tokenweir/migrations/__init__.py:496-542 | Every interleaving of any sessions keeps the lock, the state table and the executed log in agreement. |
| MigratorProtocol.OneInsideAtATime | src/tokenweir/migrations/__init__.py:496-542 | No two sessions are ever both between taking the lock and giving it up, failed unlocks, interruptions and lost connections included. |
| MigratorProtocol.ConsistentIff | src/tokenweir/migrations/__init__.py:528-688 | For every run of any number of sessions: each migration's SQL is committed at most once and there is a row exactly for what was committed or adopted, if and only if no session takes the lock, or settles after giving it up, with a migration's SQL run and its row not yet inserted. |
| MigratorRuns.EachMigrationOnce | src/tokenweir/migrations/__init__.py:545-692 | Over every run in which no interruption leaves a migration's SQL open without its row: at most one commit per migration, and rows exactly for the committed and adopted. |
| MigratorRuns.CallsEndExactly | src/tokenweir/migrations/__init__.py:545-692 | Over every run that interrupts no open migration: a successful apply leaves nothing outstanding, a failed one exactly the versions before the failing one, a report is true of the table, a refusal changes nothing, an unacknowledged commit counts. |
| MigratorRuns.LockIsCounted | src/tokenweir/migrations/__init__.py:496-542 | Over every run a session holds the lock as often as it has taken it and not given it up, not at all once its connection is gone, and no two sessions hold it. |
| MigratorRuns.NothingComesBack | src/tokenweir/migrations/__init__.py:628-692 | Each migration that is outstanding after a run was outstanding before it, whatever any session does. |
| MigratorRuns.DestructionIsAllowed | src/tokenweir/migrations/__init__.py:649-664 | Over every run of any sessions, interruptions included: each migration whose SQL was committed or is open is one that some call was made to apply, with permission if it is destructive. |
| MigratorRuns.EachCallIsAllowed | src/tokenweir/migrations/__init__.py:649-688 | In every reachable state a session about to run or commit a migration is in a call that accepted the table it read, ships the migration and, if it is destructive, allows it. |
| MigratorRuns.ReadDecides | src/tokenweir/migrations/__init__.py:628-664 | What a call does with the table it reads: refuses, reports, stops as destructive, or goes on with everything outstanding, each exactly when its cause holds. |
| MigratorRuns.InterruptionTears | src/tokenweir/migrations/__init__.py:528-542 | One interruption between a migration's SQL and its row commits it unrecorded, and the next run commits it a second time. |
| Transcript.CoerceCount | src/tokenweir/claude_code.py:332-349 | A count is the value itself when that is a non-negative whole number, as an integer or a float, and 0 otherwise. |
| Transcript.CountsAreRead | src/tokenweir/claude_code.py:322-329 | Each of the four counts of a usage object is read into its own total. |
| Transcript.ScanTranscript | src/tokenweir/claude_code.py:402-519 | The loop's totals are the sum over the lines that open a response, in order; model and timestamp are the last known among them, the id that of the very last. |
| Transcript.TotalGrows | src/tokenweir/claude_code.py:299-307 | The total of a longer prefix covers that of a shorter one in every field. |
| Transcript.RepeatsCountNothing | src/tokenweir/claude_code.py:417-434 | Lines that repeat ids already seen count nothing, whatever usage they carry. |
| Hook.ClaudeCodeHook.constructor | src/tokenweir/claude_code.py:552-572 | Before the first turn there is no baseline. |
| Hook.ClaudeCodeHook.Run | src/tokenweir/claude_code.py:1135-1213 | A record is returned exactly when the scan covers the baseline and found more and the delivery was accepted, delivered, not degraded and not reported lost by the drop counter; it holds what is above the baseline. The baseline moves only with a record or after a complete read that went backwards, and then to the whole total. |
| Hook.BaselineIsHonest | src/tokenweir/claude_code.py:1138-1213 | Over any history of refused, lost, half-read and unwritten turns on a growing transcript, the baseline is the exact total of a prefix the transcript had and never more than the kept records report. |
| Hook.NeverReanchors | src/tokenweir/claude_code.py:1138-1161 | On a growing transcript a complete read always covers the baseline. |
| Hook.LostBaselineCountsOnce | src/tokenweir/claude_code.py:590-600 | While the baseline can be written, the kept records report it plus exactly what was remembered each time it could not be read. |
| Hook.RefusedTurnsAreCarried | src/tokenweir/claude_code.py:1042-1047 | While the baseline can be read and written, after any turn read whole and kept the records report the whole transcript, each response once. |
| Hook.LostTurnChangesNothing | src/tokenweir/claude_code.py:1189-1211 | On a growing transcript a turn that is refused, degraded or reported lost leaves the baseline and the kept records as they were. |
| Hook.LostTurnsAreReported | src/tokenweir/claude_code.py:1042-1047 | After any number of lost turns the next one read whole and not lost reports, in one record, everything above the baseline that stood before the first of them. |
| Hook.UnwritableInflates | src/tokenweir/claude_code.py:596-612 | While no baseline can be written, the kept records are the running totals of the session. |
| Hook.EvenTurnsReport | README.md:745-751 | Turns of equal size that are never remembered report once, twice, three times that size; not what the README says. |
| Parity.Accumulator.constructor | src/tokenweir/parity.py:256-265 | A response starts as what its first line says. |
| Parity.Accumulator.Add | src/tokenweir/parity.py:374-380 | A later line adds its text and its flag, and leaves model, timestamp and usage. |
| Parity.FileLine | src/tokenweir/parity.py:359-380 | Filing an entry keeps one accumulator per key, each holding what its key's lines say. |
| Parity.Yield | src/tokenweir/parity.py:387-397 | The turns are what is gathered under each key, in order of first appearance. |
| Parity.IterTurns | src/tokenweir/parity.py:320-398 | A file that does not open yields nothing; otherwise the turns are the grouping of the lines read. |
| Parity.GatheredInOrder | src/tokenweir/parity.py:320-398 | Something is gathered under a key exactly when the key is listed. |
| ParityAgreement.AgreeIff | src/tokenweir/parity.py:268-398 | The turns are exactly the scan's counted responses in the same order, each with the counted usage and the text of all its lines, if and only if no id begins with the reserved prefix. |
| ParityAgreement.TotalsAgree | src/tokenweir/parity.py:308-317 | Then there are as many turns as the scan counts, and their usage adds up to its totals. |
| Text.CollapseIsWords | src/tokenweir/orchestrator.py:216-225 | Folding leaves the words of the text, `_` and `#` counting as spaces, one blank apart. |
| Text.CollapseTwice | src/tokenweir/orchestrator.py:216-225 | Folding twice is folding once. |
| Text.CollapseEmpties | src/tokenweir/orchestrator.py:216-225 | A text folds to nothing exactly when it is separators throughout. |
| Phases.ParseIff | src/tokenweir/orchestrator.py:253-297 | The parser names a kind and an occurrence if and only if the text says so: digits after the kind behind one hyphen or one run of blanks, or digits with their one valid suffix before it. |
| Phases.SuffixFollowsDigits | src/tokenweir/orchestrator.py:228-250 | The suffix is `th` in the teens, and otherwise `st`, `nd`, `rd` after 1, 2, 3 and `th` after any other digit. |
| Phases.KindsAreWritten | src/tokenweir/orchestrator.py:135-145 | The words of each kind, and the one of them that is printed. |
| PhaseLabels.LabelsReadBack | src/tokenweir/orchestrator.py:300-335 | A printed label parses to the pair it was printed from and normalizes to itself. |
| PhaseLabels.LabelsDiffer | src/tokenweir/orchestrator.py:300-335 | Distinct pairs have distinct labels. |
| PhaseLabels.NormalizeTwice | src/tokenweir/orchestrator.py:338-381 | Normalizing is idempotent on every text. |
| PhaseLabels.CanonicalIffRecognized | src/tokenweir/orchestrator.py:384-395 | The normalized text is canonical exactly when the parse recognized a kind with a valid occurrence. |
| PhaseLabels.SpellingsFold | src/tokenweir/orchestrator.py:338-381 | Any text whose words, in lower case, say a kind and an occurrence normalizes to the label printed for them. |
| PhaseLabels.NormalizeRaisesIff | src/tokenweir/orchestrator.py:276-288 | Normalizing raises exactly on a kind followed by more than 4300 digits. |
| PhaseLabels.LongNumeralRaises | src/tokenweir/orchestrator.py:276-288 | Each kind, a blank and any 4301 digits or more is such a text. |
| PhaseLabels.CanonicalIsLabelIff | src/tokenweir/orchestrator.py:174-176 | Text the pattern accepts is a label exactly when it has no trailing newline and no digit outside ASCII. |
| PhaseLabels.NewlinePassesForCanonical | src/tokenweir/orchestrator.py:174-176 | Every label with a newline after it is accepted, is not a label, and normalizes to the label. |
| PhaseSpellings.NumberAfterKind | src/tokenweir/orchestrator.py:178-189 | A kind in any spelling and case, any separators, and any numeral of n, leading zeros included, normalizes to the label of n. |
| PhaseSpellings.OrdinalBeforeKind | src/tokenweir/orchestrator.py:228-250 | So does any English ordinal of n with its valid suffix in any case. |
| Attribution.RefusesIff | src/tokenweir/orchestrator.py:461-507 | The producer refuses blanks, separators alone, occurrence 0, numerals too long, unknown modes and wrong types, and nothing else. |
| Attribution.ImpossibleIff | src/tokenweir/orchestrator.py:492-506 | A written phase is rejected for its occurrence exactly when it says occurrence 0 of a kind. |
| Attribution.ExportsAre | src/tokenweir/orchestrator.py:461-507 | Each argument is exported in its own variable: texts stripped, a phase normalized, a mode by name, and what is left out empty. |
| Attribution.ReadsBack | src/tokenweir/claude_code.py:743-789 | For every accepted argument set the hook reads back the normalized phase, the issue key and stream id stripped and never blank to the record contract, nothing for what was left out alone, and the mode, an absent one as a subscription. |
| Attribution.StrippedIsNotBlank | src/tokenweir/contract.py:104-135 | Stripping what the contract does not call blank leaves something it does not call blank. |

## Left out

- Reconcile.CompareColumns: observations and remedy texts are not modelled; they never affect a plan's signature or its statements.
- Reconcile.Connection.Apply: a finding holds the live default and the live columns whole, where the source's description cuts a default at 40 characters, so a plan is stale in the model when only what is cut off has changed; the plan and the statements see one schema; another session changing it between the re-plan and the first statement is not modelled, and the source takes no lock against it.
- Convergence.Converges: the reference is any well-formed schema rather than the six shipped files, whose SQL is not interpreted; foreign keys, triggers, privileges and the naming of keys other than `<table>_pkey` are not modelled.
- ReconcileLimits.ExecutesIff: an index is the columns it names and whether it is UNIQUE, and a view the columns it selects; partial and expression indexes, NULLS NOT DISTINCT and the types inside a view's query are not modelled. What stands under a table's name is a table, a view or something else that takes no statement; that reading an index's rows raises and that a materialized view takes an index are not modelled, nor the other name the server gives a new primary key when `<table>_pkey` is taken.
- TableSettling.TableSettles: CHECK text is abstract, with a server that says which definitions are checks and which rows satisfy them; added cells never change that verdict, because a constraint reads only its own columns.
- Emitter.BufferedEmitter.Run: waiting on the condition, linger timeouts and notification are not modelled in the class; in `EmitterProtocol` they are steps that may happen at any time.
- EmitterProtocol.CloseDrains: fairness is not modelled; it bounds the worker's steps and shows it never blocks, but does not say the scheduler runs it.
- Direct.DirectSink.EmitBatch: the iterable that raises while it is drained is not modelled; nothing is counted for it.
- Amqp.AMQPSink.EmitRecord: a `BaseException` out of the driver is not modelled; it would leave an emit neither published nor dropped.
- AmqpBounds.DialsAreCapped: the clock is a non-negative, non-decreasing real; floating-point rounding of deadlines is not modelled.
- RateLimit.LinesAreSpaced: times are reals, so rounding of a deadline is not modelled.
- Scanner.StripComments: double-quoted identifiers, dollar quoting and escape strings, which the scanner does not claim to read.
- Migrator.Connection.Apply: the SQL of a migration and the word scan over its stripped text are one flag, and SHA-256 one text; building and adopting the state table's columns is not modelled, rows without a checksum are.
- MigratorRuns.CallsEndExactly: sessions that opt out of the advisory lock are not modelled; the source hands that responsibility to the caller.
- Transcript.ScanTranscript: starts from classified lines; JSON text, encodings and the stripping of names happen before it.
- Hook.ClaudeCodeHook.Run: the state file is one optional value whose read and write may fail; hashing, atomic replacement, record fields other than the counts, id, model and timestamp, and a state file holding partial nonsense are not modelled.
- Parity.IterTurns: splitting a message's content into text, thinking and unaccounted blocks happens before it.
- Phases.ParseIff: what Python and the record schema call a space, a digit and lower case are parameters, required to be right on ASCII, to give decimal digits no case and to call every Python space blank; context-dependent lower-casing of one Greek letter is not modelled.
- Attribution.ReadsBack: the environment holds any text; limits the operating system puts on it are not modelled.
- The cost rollup view, `contract.py`'s field checks, `build_record`, `postgres.row_for`, the parity network probes and every command line: each is a list of independent cases.
- Logging, locks as such, `atexit`, weak references and real threads: logging is a no-op and a locked region is one step.
