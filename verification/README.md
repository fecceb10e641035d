# Verified model of HIOP's agent protocol and operational cores

HIOP manages hotel networks. A local agent claims jobs from the server, runs them in worker processes, keeps
observations in a durable queue and delivers them over an unreliable network; the backend limits request rates,
resets operational data, authorises scan ranges, matches imported records, keeps the organisation hierarchy and
maps import columns. This project models those parts in Dafny and proves what they promise.

`dafny verify dfyconfig.toml` checks everything.

| file | what it models |
|---|---|
| `Collectors.dfy` | the discovery scan with its progress batches, and the worker's messages |
| `Queue.dfy` | the durable queue: retention, capacity eviction, due rows, backoff |
| `Backend.dfy` | the observation endpoint behind a network that loses requests and replies |
| `Supervision.dfy` | the protocol of one supervised job as a machine over events, and what holds of all its runs |
| `Protocol.dfy` | which event may follow which, and what each kind of event leads to, without the machine |
| `JobRuns.dfy` | the worker and the steps of its supervision, proved against that machine |
| `Outbox.dfy` | what the agent's invariants say about queue, posts and server; flushes, and rows that stop them |
| `Records.dfy` | supervisions, rounds over the offered jobs, and cycles, once they are over |
| `Agent.dfy` | `flush`, the supervision loop, `poll_jobs` and the agent's cycles |
| `Attempts.dfy`, `RateLimit.dfy`, `LoginLimit.dfy` | the two sliding-window limiters against the whole call history |
| `ResetData.dfy` | the preserved-table closure, the cascading truncation and the removal of disabled users |
| `Cidr.dfy`, `Networks.dfy` | address blocks, host lists, authorisation of scan ranges |
| `Matching.dfy`, `Scores.dfy`, `Normalize.dfy` | record scoring, the score in numbers, subnet rules, normal forms of values |
| `Hierarchy.dfy` | create, update and deactivate over the organisation hierarchy |
| `Columns.dfy` | column detection and mapping validation |
| `Text.dfy`, `Wrappers.dfy` | ASCII text, optional values and results |

## How the parts fit together

The environment is arbitrary wherever the code does not control it: every server answer, clock reading, arrival
of a message, order of probe results and database fault is chosen freely. What the server offers in a cycle, how it
answers a claim and what a job's collection yields are inputs of a run (`Records.Turn`, `Records.Offer`), so that
its results can speak of them. A supervision is recorded as a trace of
events. `Supervision.Step` says which event may follow which; the methods of `JobRuns` and `Agent` are proved to
produce only such traces, and the lemmas of `Supervision` hold of every such trace. `Protocol.MayFollow` says the same
in terms of the events alone, and `Protocol.RunsExactly` that the two agree. The trace also keeps the
agent's books: `Supervision.Account` reads off it which ids were queued, how often the queue was flushed and which
observations were posted, and `Agent.AgentClient.Running` says at every step that this is what the agent has in
fact done to its queue and to the server. So what is proved of traces, for instance that a job once called off has
no further effect, is proved of the queue and the server (`Records.NothingAfterCallOff`). The delivery result joins
three files: `Collectors.Collect` fixes what a worker would send, `Agent.AgentClient.Supervise` that the trace
hears a prefix of it, and `Supervision.CompletedHasEveryDevice` that a reported completion then means a complete
scan on the server. `Agent.AgentClient.RunAgent` carries this over any number of cycles: they chain together into an
account of everything that was queued, flushed and posted (`Records.Chained`). `Agent.AgentClient.Valid` is the
invariant of all runs: conservation of ids, with the reason why each row left; agreement of the queue, the posts and
the server about what an id means; the agreement of recorded attempts with the failures that happened; and the pacing
of retries.

Two idealisations apply throughout: time stamps are reals, and a second of listening without a message advances
the monotonic clock by at least a second, which is what makes the supervision loop end. The wall clock may jump;
where a result needs it not to go back, the ghost flag `steady` records that it never did.

## What the code does that a reader may not expect

- `add` evicts while the store is full before it looks at the id, so adding an id that is already queued can evict
  a row, its own included; with a capacity below one, which the configuration accepts, the eviction loop never
  ends (`EvictionTerminatesExactly`).
- With `--remove-disabled-users` the reset deletes rows of a preserved table, "users"; rows that refer to them may
  go along or stop the whole reset. Its preserved tables lose nothing exactly when the flag is absent or no user is
  inactive (`KeptTablesLoseNothingExactly`).
- The agent caps every limit at 4096 and the backend's check does not: on networks wider than a /20 and a larger
  limit, the two functions disagree (`ProbesStayAuthorized`, `AcceptedButRefused`).
- A row whose post is answered with an unreadable body is neither removed nor rescheduled, and ends the flush. As
  long as that lasts, and at most fifty rows are no newer, no cycle asks for jobs and nothing newer is sent
  (`PoisonedRowStopsTheAgent`).
- A job whose claim was accepted but whose worker cannot be set up is never supervised and never reported
  (`StartedAreSupervised`).
- A job whose time limit is not positive can never complete (`ReportsExactly`).
- The final observation is posted with a new time of observation, so the row that stays queued after a failed
  post carries another one. Source and payload under one id never differ.
- `Retry-After` is rounded down, so a client that waits as told can be refused again. `WaitSuffices` says exactly
  when it is not: when the time left was at most a second, or a whole number of seconds.
- `OperationRateLimiter` calls itself a fixed-window limiter; the code keeps a sliding log, and so does the model.
- With a non-positive threshold for "exact" or "strong", two empty records are recommended for linking
  (`LinksAreEarnedExactly`).
- A repeated header is reported as ambiguous by the detector but its suggestion passes the validator
  (`DetectorAgreesWithValidator`).
- A rename is compared with the names of all organisations, a creation only with those of its own: how a rename is
  answered depends on the rows of others exactly as far as one of them has the name (`UpdateInterferesExactly`).
- The agent's first size check never decides: the second one alone accepts the same networks.

## Model

| member | source | states |
|---|---|---|
| Collectors.RunPool | agent/hiop_agent/collectors.py:45-53 | the completion loop yields the reachable devices in completion order, or the first crash, and one batch per sixteen completions plus a last one |
| Collectors.Discover | agent/hiop_agent/collectors.py:40-53 | a scan succeeds exactly when the network passes both size checks and no probe crashes; devices plus unresponsive is scanned; a refused network sends nothing |
| Collectors.BatchesAccumulate | agent/hiop_agent/collectors.py:50-52 | after each progress call the batches so far hold exactly the reachable hosts among the completions it reports, for any completion order |
| Collectors.BatchesAreSmall | agent/hiop_agent/collectors.py:51-52 | no batch has more than sixteen devices |
| Collectors.BatchesComplete | agent/hiop_agent/collectors.py:51-53 | the batches of a finished scan concatenate to its device list and the last one counts every host |
| Collectors.BatchesCountBySixteen | agent/hiop_agent/collectors.py:51-52 | every batch reports sixteen completions more than the one before, and the last one all of them |
| Collectors.ScannableExactly | agent/hiop_agent/collectors.py:40-61 | a scan is begun exactly if the payload can be read, the network has at most as many hosts as the job asks for, and its prefix is at least 20 |
| Collectors.ResultsByKind | agent/hiop_agent/collectors.py:56-64 | what each kind of job ends with: a reading under its own source, a scan if the range is admitted and no probe crashed, or an error |
| Collectors.DevicesAreHosts | agent/hiop_agent/collectors.py:43-50 | when the pool runs every host, exactly the host addresses of the network are probed, as many probes complete as there are hosts, every reported device is a host, and an accepted scan reports no more than the limit |
| Collectors.Collect | agent/hiop_agent/job_worker.py:5-13 | the worker sends progress messages and then exactly one result or error, the right one for its kind; a payload that cannot be read or a range that is too large sends the error alone; a crashed scan has sent the full batches before the crash |
| Collectors.OutputIsCovered | agent/hiop_agent/job_worker.py:8-9 | the result of a scan lists every device of every batch its worker sent and counts every completion; when the pool ran every host it counts all hosts |
| Queue.DelayBounds | agent/hiop_agent/queue.py:18 | every delay is between 2 and 256 seconds, so the cap of 300 never binds |
| Queue.BackoffClosedForm | agent/hiop_agent/queue.py:17-18 | the total wait of k failures is 2^(k+1)-2 up to eight failures and grows by 256 a failure beyond |
| Queue.DurableQueue.constructor | agent/hiop_agent/queue.py:6-8 | opening a store of any size prunes it and starts a balanced account of its rows |
| Queue.DurableQueue.Prune | agent/hiop_agent/queue.py:20 | exactly the rows past retention leave, recorded as pruned with the row and the reading |
| Queue.DurableQueue.EvictOldest | agent/hiop_agent/queue.py:11 | a row of least creation time leaves, ties broken arbitrarily, recorded with the table it was oldest in |
| Queue.DurableQueue.EvictDown | agent/hiop_agent/queue.py:11 | for a positive capacity the eviction loop ends with room for one row, and nothing evicted is newer than anything kept |
| Queue.DurableQueue.MakeRoom | agent/hiop_agent/queue.py:11 | the loop ends exactly for a positive capacity, evicts no more than needed, oldest first, only from full tables, and keeps the account of ids in balance |
| Queue.DurableQueue.Shrink | agent/hiop_agent/queue.py:10-11 | what leaves before an insertion: the rows past retention, then the oldest of what is left as far as the capacity requires; no earlier departure is forgotten |
| Queue.DurableQueue.Insert | agent/hiop_agent/queue.py:12 | an id that is present keeps its row |
| Queue.DurableQueue.Add | agent/hiop_agent/queue.py:9-12 | for a positive capacity the id is present afterwards, the store is within capacity, and every row that left is accounted for as pruned or evicted; otherwise the call never returns and only the pruning is committed |
| Queue.DurableQueue.AddFresh | agent/hiop_agent/queue.py:9-12 | under a new id, no id is both queued and departed, and apart from the new row only old rows remain, unchanged |
| Queue.DurableQueue.Ready | agent/hiop_agent/queue.py:13-15 | rows whose time has come, each once, oldest first, up to the limit; none is left out for a newer one, and none while there is room |
| Queue.DurableQueue.Ack | agent/hiop_agent/queue.py:16 | exactly that row leaves, recorded as acknowledged |
| Queue.DurableQueue.Retry | agent/hiop_agent/queue.py:17-18 | the row has one more failure than it was sent with and is due when exactly the delay for that has passed; nothing else of it and no other row changes |
| Queue.EvictionTerminatesExactly | agent/hiop_agent/queue.py:11 | deleting an oldest row a round brings the table below the capacity exactly when that is at least one, whatever the table holds, and then within as many rounds as there are rows, whichever of equally old rows goes first |
| Backend.Server.Ingest | backend/app/api/v1/local_agents.py:187-197 | a new id is stored and its effects applied once; a known id has no effect |
| Backend.Server.Post | backend/alembic/versions/p4agent0a1b2c3_production_local_agent.py:36 | whatever the network loses, an observation is stored at most once per id, and an answered post means it is stored |
| Supervision.ReportsAreBounded | agent/hiop_agent/client.py:39-76 | every supervision requests between one and three terminal statuses, and raises only after an undelivered "failed" |
| Supervision.ReportsExactly | agent/hiop_agent/client.py:37-76 | nine sequences of terminal statuses are possible; on a clock that never goes back each of them is, except that those with "completed" need a positive time limit |
| Supervision.WorkerIsStopped | agent/hiop_agent/client.py:71-76 | every supervision ends by stopping the worker and closing the pipe, and never listens to a stopped worker |
| Supervision.CalledOffMeansNoResult | agent/hiop_agent/client.py:41-49 | once the loop head sees a cancellation or a passed deadline, nothing is queued, flushed or posted, "completed" is never reported, and the first report is the reason |
| Supervision.CalledOffHasNoEffect | agent/hiop_agent/client.py:41-49 | from that moment the account of ids queued, flushes and posts does not change |
| Supervision.DeadlineIsTimed | agent/hiop_agent/client.py:37 | the deadline is the first clock reading plus the time limit |
| Supervision.CompletedMeansDelivered | agent/hiop_agent/client.py:53-65 | when "completed" is requested, the final message was heard, queued, answered by the server and removed from the queue |
| Supervision.CompletedHasEveryDevice | agent/hiop_agent/client.py:52-65 | a discovery job reported as completed has had an observation accepted whose device list is that of all progress batches the worker sent, in order, however late or lost those are; it counts all hosts if the pool ran them all |
| Protocol.RunsExactly | agent/hiop_agent/client.py:37-76 | the runs of the machine are exactly the traces in which every event may follow the ones before it |
| Protocol.MayFollowExactly | agent/hiop_agent/client.py:37-76 | which event may follow a run, in terms of the events before it |
| Protocol.FinishedExactly | agent/hiop_agent/client.py:71-76 | a run is over exactly when the pipe is closed, and ends in an exception exactly when the report of failure raised |
| Protocol.LostWorkerMeansFailed | agent/hiop_agent/client.py:53-73 | a worker that dies in silence, a broken pipe and an error message each lead to a stop and to "failed", which is all that is reported |
| Protocol.FaultIsReported | agent/hiop_agent/client.py:71-73 | after anything that raises the worker is stopped and then "failed" is reported |
| Protocol.FailedExactly | agent/hiop_agent/client.py:71-73 | "failed" is reported exactly when something raised |
| Protocol.TimedOutExactly | agent/hiop_agent/client.py:46-49 | "timed_out" is reported exactly when the deadline check read a clock at or past the deadline |
| Protocol.CancelledExactly | agent/hiop_agent/client.py:41-68 | "cancelled" is reported exactly when the job state said so or the answer to the report of completion did |
| Protocol.CompletedExactly | agent/hiop_agent/client.py:62-65 | "completed" is reported exactly when the final observation was removed from the queue after its answer |
| Protocol.HeartbeatsWhenDue | agent/hiop_agent/client.py:50-51 | at each reading for it a heartbeat is sent exactly if the interval since the last one has passed |
| JobRuns.Worker.Listen | agent/hiop_agent/client.py:52-53 | messages arrive in the order they were sent, or not at all |
| JobRuns.JobRun.Guard | agent/hiop_agent/client.py:41-51 | the state is read first; one that calls the job off leads to a stop and the report "cancelled" and nothing else, an exception to nothing else; the loop goes on to listen only before the deadline |
| JobRuns.JobRun.CheckTime | agent/hiop_agent/client.py:46-49 | a reading at or past the deadline leads to a stop and the report "timed out" and nothing else |
| JobRuns.JobRun.Heartbeat | agent/hiop_agent/client.py:50-51 | a heartbeat is sent exactly when it is due and then restarts the interval; a failing one is an exception |
| JobRuns.JobRun.WindUp | agent/hiop_agent/client.py:42-49 | the worker is stopped, and then the reason is reported; the run ends in an exception exactly if that raises |
| JobRuns.JobRun.ReportCompletion | agent/hiop_agent/client.py:65-68 | completion is reported; exactly if the answer is that the job is being cancelled, the worker is stopped and "cancelled" is reported as well |
| JobRuns.JobRun.ReportFailure | agent/hiop_agent/client.py:71-73 | after an exception the worker is stopped and then the failure is reported, which may raise in turn |
| JobRuns.JobRun.Close | agent/hiop_agent/client.py:71-76 | the events of the handler, if there was an exception, and of the `finally` block, in order; whatever happened the worker is stopped |
| Agent.AgentClient.Enqueue | agent/hiop_agent/queue.py:9-12 | a payload is queued under an id never used before, created at the reading of that moment; what else leaves was past its retention, or the oldest as far as the capacity requires, and nothing else changes |
| Agent.AgentClient.Wall | agent/hiop_agent/queue.py:10 | the clock counts as steady exactly as long as no reading is earlier than the latest before it |
| Agent.AgentClient.Postpone | agent/hiop_agent/client.py:24 | exactly one more failure of the row is on record, and it is scheduled for its next try |
| Agent.AgentClient.SendOne | agent/hiop_agent/client.py:22-24 | a row leaves only if its post was answered; a network failure reschedules it; any other failure leaves it as it is |
| Agent.AgentClient.Flush | agent/hiop_agent/client.py:20-24 | each due row is sent in order with exactly that effect and no other row changes; the failures on record grow by exactly the network failures of this flush; on a steady clock no row is sent before its creation plus the delays of all failures of its posts so far |
| Outbox.ObservationsAt | agent/hiop_agent/queue.py:15 | what a flush posts are its rows in order, each with its own id, source, time and payload |
| Agent.AgentClient.PostFinal | agent/hiop_agent/client.py:61-62 | one observation is posted that carries the message; answered means the server stores exactly that observation |
| Agent.AgentClient.AckFinal | agent/hiop_agent/client.py:63-64 | only an answered observation is removed, and then the job is the last successful one |
| Agent.AgentClient.Keep | agent/hiop_agent/client.py:55 | a received message is queued under a new id with its own job and result, at the cost of expired and surplus rows only, or the database failed and nothing changed |
| Agent.AgentClient.Handle | agent/hiop_agent/client.py:55-69 | the message is queued first, under a new id and with its own content, or nothing is done at all; queued progress is flushed once; the loop goes on only after progress |
| Agent.AgentClient.Deliver | agent/hiop_agent/client.py:56-69 | queued progress is flushed; a final result ends the loop, with completion reported only after an answered post and its removal from the queue; nothing more is queued |
| Agent.AgentClient.Round | agent/hiop_agent/client.py:40-70 | a round consumes a message or lets a second pass before the deadline, or ends the loop; silence of a dead worker, a broken pipe and an error message are exceptions; one that hears nothing, called off or not, leaves queue and server as they were |
| Agent.AgentClient.Attempt | agent/hiop_agent/client.py:39-70 | the loop ends, for every choice of the environment |
| Agent.AgentClient.Supervise | agent/hiop_agent/client.py:34-76 | a supervision is a finished run of the protocol with the job's own time limit, its worker is dead, everything it sent and got answered is stored as sent, and its trace accounts for every id queued, every flush and every post |
| Agent.AgentClient.TakeOffer | agent/hiop_agent/client.py:31-76 | an offered job is supervised exactly if its claim is answered with "started" and its worker can be set up; otherwise nothing happens to the queue or the observations, and the round goes on exactly if the job was declined |
| Agent.AgentClient.PollJobs | agent/hiop_agent/client.py:25-76 | exactly the jobs whose claim is answered with "started" and whose worker can be set up are supervised, in order, until an exception ends the round; nothing but the supervisions touches the queue or posts observations; a job is reported as completed only when the server holds its result |
| Agent.AgentClient.RunCycle | agent/hiop_agent/runner.py:12-14 | a cycle flushes unless its heartbeat raises, asks for jobs unless the flush raises, goes over the offers until one raises, and does nothing else to the queue or the observations |
| Agent.AgentClient.RunAgent | agent/hiop_agent/runner.py:10-15 | over any number of cycles, each of that form and starting where the last one left off, the invariant holds, nothing ever queued, departed or stored is forgotten, and every completion ever reported is backed by the job's result on the server |
| Records.NothingAfterCallOff | agent/hiop_agent/client.py:37-49 | once a state calls the job off, or a clock reads at least the time limit past its first reading, the agent queues, flushes and posts nothing more for it; the first report is the reason |
| Records.LostWorkerIsReported | agent/hiop_agent/client.py:53-73 | in every supervision of the agent a lost worker is stopped and the job reported as failed, and as nothing else |
| Records.CompletedScanIsWhole | agent/hiop_agent/client.py:59-65 | behind a completed discovery job the server holds a scan with every device of every batch, over every completion; when the pool ran every host of the network it counts them all and lists only hosts |
| Records.StartedAreSupervised | agent/hiop_agent/client.py:31-36 | the jobs whose claim is answered with "started" are the supervised ones and at most one more, the last of a round whose worker could not be set up |
| Records.TakenExactly | agent/hiop_agent/client.py:31-33 | the jobs taken, in order, are those whose lookup succeeded and whose claim was answered with "started" |
| Records.PollsExactly | agent/hiop_agent/runner.py:12-14 | a cycle gets to ask for jobs exactly if the heartbeat goes through and no post of its flush ended otherwise than in an answer or a network failure |
| Records.PoisonedRowStopsTheAgent | agent/hiop_agent/client.py:20-24 | while the posts of a due row are answered unreadably and at most fifty rows are no newer, no cycle asks for jobs, nothing newer is sent and the row stays as it is, over any number of cycles |
| Outbox.FlushGetsPastFirst | agent/hiop_agent/client.py:21-24 | a flush gets past its first row exactly if that post was answered or failed as a network failure, and through all exactly if every one did; otherwise the first row is all it sends |
| Outbox.UnreadableRowBlocks | agent/hiop_agent/client.py:21-24 | a flush sends nothing newer than a due row whose post ends otherwise |
| Agent.EveryIdHasOneFate | agent/hiop_agent/client.py:20-24 | every id ever queued is queued or has left in one way, with its own payload: acknowledged after an answered post and applied exactly once, evicted as the oldest of a table at its capacity, or pruned past its retention |
| Attempts.PoppedIsLive | backend/app/core/rate_limit.py:41-42 | popping expired stamps from what remains of an ordered log leaves exactly the log's live stamps |
| Attempts.LiveCounts | backend/app/core/rate_limit.py:21 | the live stamps are as many as the stamps of the log that are later than a window ago |
| Attempts.JudgeIsFair | backend/app/core/rate_limit.py:21-22 | the verdict passes exactly with fewer than `limit` stamps later than a window ago; otherwise it refuses with a wait of at least a second and less than a second short of the expiry of the first of them, or fails if there is none |
| Attempts.RetryAfterBounds | backend/app/core/rate_limit.py:22 | the reported wait is at least one second and less than a second short of the true one |
| Attempts.WaitSuffices | backend/app/core/rate_limit.py:21-22 | exactly when waiting as told lets the next attempt through, in terms of the live attempts and the clock; with just `limit` of them, when the time left is at most a second or a whole number of seconds, and one more second always does |
| Attempts.WaitCanBeShort | backend/app/core/rate_limit.py:22 | a wait that is too short |
| Attempts.Deque.PopThrough | backend/app/core/rate_limit.py:67-68 | the pruning loop computes the pops of the specification |
| Attempts.DequeMap.Fetch | backend/app/core/rate_limit.py:39 | reading a missing key stores and returns a new empty deque; the deque returned is the one stored |
| RateLimit.AdmissionsAreSpaced | backend/app/core/rate_limit.py:52-76 | in every ordered history any limit + 1 admissions of a key span at least the window |
| RateLimit.AdmissionsExactly | backend/app/core/rate_limit.py:67-76 | a call is one more admission exactly if it is of the key and fewer than `limit` earlier ones are later than a window ago |
| RateLimit.NeverMoreThanLimit | backend/app/core/rate_limit.py:52-76 | in every ordered history no key ever has more than `limit` live admissions |
| RateLimit.WaitingSufficesExactly | backend/app/core/rate_limit.py:69-74 | after any refusal, a caller who waits as told passes exactly when the oldest live admission was to expire within a second or after a whole number of seconds |
| RateLimit.OwnKeyIsKept | backend/app/core/rate_limit.py:65-76 | a call pops exactly what the naive rule on the whole history does not count and leaves all that later calls need |
| RateLimit.OperationRateLimiter.Decide | backend/app/core/rate_limit.py:62-76 | the verdict on the pruned deque, the empty-deque error included; other keys are untouched |
| RateLimit.OperationRateLimiter.Check | backend/app/core/rate_limit.py:62-76 | in clock order a call passes exactly when fewer than `limit` admissions of its key in the whole history are later than a window ago, and exactly then it is one more; otherwise the wait fits the first of them |
| LoginLimit.PruneIsExact | backend/app/core/rate_limit.py:38-46 | pruning leaves exactly the failures since the last success that are later than a window ago |
| LoginLimit.FailuresExactly | backend/app/core/rate_limit.py:29-36 | a stamp counts against a client exactly if it is of a failure of that client after its last success |
| LoginLimit.FailedLoginLimiter.Prune | backend/app/core/rate_limit.py:38-46 | the pruned deque is the one still stored in the map |
| LoginLimit.FailedLoginLimiter.Check | backend/app/core/rate_limit.py:17-27 | refuses exactly when at least `limit` failures since the client's last success are later than a window ago, however many more, with a wait that fits the first of them |
| LoginLimit.FailedLoginLimiter.Failure | backend/app/core/rate_limit.py:29-32 | the failure is added to the stored deque of its client and to no other |
| LoginLimit.FailedLoginLimiter.Success | backend/app/core/rate_limit.py:34-36 | a success forgets the client's failures and nobody else's |
| ResetData.PreservedTables | backend/scripts/reset_operational_data.py:32-44 | the loop ends with the least set that holds the preserved tables and is closed under foreign-key parents, or with a table that set would need but that does not exist |
| ResetData.PreservedIsUnique | backend/scripts/reset_operational_data.py:38-43 | the result does not depend on the order of visits |
| ResetData.CascadeIsExact | backend/scripts/reset_operational_data.py:57-59 | truncating everything outside a closed set empties exactly what is outside it, through any chain of references |
| ResetData.SparedExactly | backend/scripts/reset_operational_data.py:33 | a set of tables survives the cascading truncation of the rest exactly when it is closed under references |
| ResetData.LeastSparedSet | backend/scripts/reset_operational_data.py:32-44 | nothing less than the computed set, holding the preserved tables, survives |
| ResetData.KeptTablesLoseNothingExactly | backend/scripts/reset_operational_data.py:76-81 | a confirmed run keeps every row of the kept tables exactly when it is not asked to remove disabled users or there is none |
| ResetData.OnlyUsersAndTheirChildrenLose | backend/scripts/reset_operational_data.py:79-80 | even then only "users" and tables with a chain of references to it lose rows |
| ResetData.DisabledUserIsLost | backend/scripts/reset_operational_data.py:79-80 | a database whose preserved table "users" loses a row |
| ResetData.Database.Execute | backend/scripts/reset_operational_data.py:76-81 | truncation and removal are one transaction: a removal that a kept row stands in the way of leaves everything as it was |
| ResetData.ResetIsProper | backend/scripts/reset_operational_data.py:76-81 | with or without the removal of disabled users, every table outside the closure ends empty |
| ResetData.Database.ResetOperationalData | backend/scripts/reset_operational_data.py:47-82 | without the exact confirmation nothing changes; with it every table outside the closure is emptied, the twelve preserved tables are in it, and no table in it loses a row exactly when the removal of disabled users is not asked for or has nothing to remove |
| Cidr.NetworkOf | backend/app/discovery/network.py:30 | the written address lies in the parsed network, whatever its host bits |
| Cidr.ContainsIsInterval | backend/app/imports/matching.py:119 | the mask test is membership between network and broadcast address |
| Cidr.SubnetIsInclusion | backend/app/discovery/network.py:58 | comparing first and last addresses is inclusion of the address sets |
| Cidr.SharedAddressMeansNested | backend/app/imports/matching.py:114-120 | two networks that share an address are nested |
| Networks.ValidatePrivateNetwork | backend/app/discovery/network.py:28-37 | exactly the private IPv4 networks are accepted, and each refusal has exactly its reason |
| Networks.BlankExactly | backend/app/discovery/network.py:42 | exactly the entries of white space alone are skipped |
| Networks.FirstBadDecides | backend/app/discovery/network.py:42 | the first entry that is neither blank nor valid decides the error |
| Cidr.HostsAreInside | agent/hiop_agent/collectors.py:43 | the host list is ascending and inside the network |
| Cidr.HostsExactly | agent/hiop_agent/collectors.py:43 | the host list holds exactly the addresses of the network, without the network and broadcast address for IPv4 and without the network address for IPv6 unless the prefix is one of the last two |
| Cidr.SizeDoubles | agent/hiop_agent/collectors.py:42 | a network has one address at the longest prefix and twice as many with each bit less |
| Cidr.NetworkIsUnique | backend/app/discovery/network.py:30 | the parsed network is the only one of its prefix that holds the address |
| Networks.ParseItemsSucceeds | backend/app/discovery/network.py:40-45 | a list parses exactly when every entry is blank or valid |
| Networks.ParseItemsKeeps | backend/app/discovery/network.py:42 | exactly the networks of the valid entries are kept |
| Networks.UsableHostsAreHosts | backend/app/discovery/network.py:60 | the usable-host formula counts the hosts a scan probes, /31 and /32 included |
| Networks.AuthorizedExactly | backend/app/discovery/network.py:48-63 | a request is accepted exactly when all its addresses lie in one authorised range, both lists parse, and it has at most the limit of hosts |
| Networks.RefusedExactly | backend/app/discovery/network.py:55-62 | which of the checks refuses a request, in their order |
| Networks.IgnoredExactly | backend/app/discovery/network.py:66-67 | an address is skipped exactly when a valid ignore entry contains it |
| Networks.AgentAgreesWithBackend | agent/hiop_agent/collectors.py:41-44 | the agent's two size checks accept exactly what the backend's formula accepts, for every limit |
| Networks.CappedAgentAgrees | agent/hiop_agent/collectors.py:61 | under the agent's cap a network is scanned exactly when the backend's formula admits it and its prefix is at least 20 |
| Networks.ProbesStayAuthorized | backend/app/discovery/network.py:58-63 | every address that a scan of an accepted network probes lies in one authorised range; under the same limit the agent's capped check admits an accepted network exactly when its prefix is at least 20 |
| Networks.AcceptedButRefused | agent/hiop_agent/collectors.py:61 | a network and a limit on which the two checks disagree |
| Matching.ExactStage | backend/app/imports/matching.py:73-77 | the score so far is the weight of the evidence, which lists the agreeing fields in order |
| Matching.IdentityStage | backend/app/imports/matching.py:78-82 | each differing identity field costs its penalty and is listed |
| Matching.HostnameStage | backend/app/imports/matching.py:83-86 | a differing hostname costs a penalty only beside an agreeing identity field |
| Matching.FuzzyStage | backend/app/imports/matching.py:87-98 | similar fields add exactly the weights listed as evidence |
| Matching.ScoreRecords | backend/app/imports/matching.py:67-111 | the running score ends as the clamped sum of evidence weights less penalties; the level is the first whose threshold it reaches, and the action is the right one for level and conflicts |
| Matching.ActionExactly | backend/app/imports/matching.py:59-110 | one level and one action are right: review for a conflict or the lower two levels, a link for the upper two with an agreeing field, and a new device otherwise |
| Scores.ScoreInNumbers | backend/app/imports/matching.py:10-99 | the score is what the agreeing fields earn, less what the differing ones cost, more what the similar ones earn, between 0 and 100, field by field |
| Scores.EvidenceExactly | backend/app/imports/matching.py:73-98 | exactly the agreeing weighted fields and, in the fuzzy mode, the similar other ones are listed as evidence, each with its weight and percentage |
| Scores.ConflictsExactly | backend/app/imports/matching.py:78-86 | exactly the differing identity fields, and a differing hostname beside an agreeing one, are listed with both values |
| Scores.MatchingExactly | backend/app/imports/matching.py:74-75 | a field is listed as matching exactly if both values are present and equal |
| Scores.MatchingInOrder | backend/app/imports/matching.py:73-75 | the matching fields are listed once each, in the order of the weights |
| Scores.IdentityLinks | backend/app/imports/matching.py:99-106 | at the default thresholds an agreeing identity field without conflict is a link, on the MAC address or asset tag as an exact match |
| Scores.HostAndAddressAreReviewed | backend/app/imports/matching.py:107-108 | at the default thresholds agreement on hostname and address alone scores 75 and is for review |
| Scores.StrangersAreCreated | backend/app/imports/matching.py:109-110 | at the default thresholds records without a value in common score nothing and are a new device |
| Matching.FuzzyOnlyIsModest | backend/app/imports/matching.py:88-102 | a result with only similar fields scores at most 74 less its penalties |
| Matching.LinkIsEarned | backend/app/imports/matching.py:100-110 | with positive thresholds a link rests on an agreeing field and meets no conflict and no differing identity field |
| Matching.LinksAreEarnedExactly | backend/app/imports/matching.py:100-110 | every link is earned exactly when the exact and strong thresholds are positive |
| Matching.ScoreIsSymmetric | backend/app/imports/matching.py:73-111 | without fuzzy matching, exchanging the records changes only the sides named in the conflicts |
| Matching.ClassifyIsMonotone | backend/app/imports/matching.py:59-64 | a higher score is never classified lower, for any thresholds |
| Matching.SelectSubnetRule | backend/app/imports/matching.py:114-120 | the first rule of greatest prefix length among those containing the address; none exactly when none does; any unparsable text is an error |
| Matching.ChosenIsMostSpecific | backend/app/imports/matching.py:114-120 | the chosen network is inside every other matching one, and the choice is unique |
| Normalize.CompactIsPlain | backend/app/imports/matching.py:32-34 | compaction amounts to the letters and digits of the lower-case text |
| Normalize.PlainExactly | backend/app/imports/matching.py:34 | of a text exactly the letters from a to z and the digits are kept, in order |
| Normalize.IdentityAgreesExactly | backend/app/imports/matching.py:37-56 | two records agree on an identity field exactly when their values have the same letters and digits up to case, and some |
| Normalize.TextAgreesExactly | backend/app/imports/matching.py:37-56 | two records agree on any other field exactly when their values, or those of the older name of department and room, have the same words up to case, and some |
| Normalize.SplitJoin | backend/app/imports/matching.py:28 | splitting a joined list of words gives the list back |
| Normalize.NormalizedIsNormal | backend/app/imports/matching.py:25-29 | a normalised value is its own normal form |
| Text.StripExactly | backend/app/imports/matching.py:28 | trimming removes white space at both ends and nothing else, and all of it |
| Text.LowerExactly | backend/app/imports/matching.py:28 | folding to lower case identifies exactly the texts with the same letters |
| Hierarchy.ParentAllowedExactly | backend/app/hierarchy/routes.py:22-42 | a parent is allowed exactly if there is none, or it exists, may hold that kind, and is of the requesting organisation |
| Hierarchy.OwnsExactly | backend/app/hierarchy/routes.py:50-52 | a row is the organisation's exactly if it says so, and a network zone if its property does |
| Hierarchy.SameNameExactly | backend/app/hierarchy/routes.py:72 | two names clash exactly if they are of one kind and differ at most in case |
| Hierarchy.ParentsMayHold | backend/app/hierarchy/routes.py:21-22 | in every reachable state a row's parent is of a kind that may hold it |
| Hierarchy.CreateKeepsConsistent | backend/app/hierarchy/routes.py:58-87 | the checks of a creation are enough to keep parents in the own organisation and names unique |
| Hierarchy.UpdateKeepsConsistent | backend/app/hierarchy/routes.py:91-112 | so are those of an update |
| Hierarchy.ChainStaysInOneOrganization | backend/app/hierarchy/routes.py:36-42 | a chain of parents from a room up stays in one organisation, one level a step |
| Hierarchy.CreateDoesNotInterfere | backend/app/hierarchy/routes.py:58-87 | how a creation is answered does not depend on rows of other organisations |
| Hierarchy.UpdateInterferesExactly | backend/app/hierarchy/routes.py:91-112 | two states with the same rows of the organisation answer an update alike exactly if it fails on those rows alone, or a row of others has the name in both or in neither |
| Hierarchy.RenameIsRefused | backend/app/hierarchy/routes.py:107-108 | a rename refused for a name of another organisation, which a creation may use |
| Hierarchy.Store.Create | backend/app/hierarchy/routes.py:58-87 | which request is refused with which error, the exact new state, the invariant, and rows of other organisations untouched |
| Hierarchy.Store.Update | backend/app/hierarchy/routes.py:91-112 | the same for an update, whose name check spans all organisations |
| Hierarchy.Store.Deactivate | backend/app/hierarchy/routes.py:116-126 | only a row of the own organisation is deactivated, and nothing else of it changes |
| Columns.DetectMapping | backend/app/imports/columns.py:40-59 | the suggestion, and exactly the fields with several sources, the unrecognised headers and the missing required fields |
| Columns.MissingExactly | backend/app/imports/columns.py:52-58 | the missing columns are those of asset tag and hostname, in this order, that do not have exactly one source |
| Columns.SourcesInOrder | backend/app/imports/columns.py:44-50 | the headers of a field are collected in the order of the file |
| Columns.AcceptedIsSound | backend/app/imports/columns.py:62-76 | an accepted mapping is one-to-one, covers the required fields, and keeps exactly the named targets |
| Columns.AcceptedExactly | backend/app/imports/columns.py:62-76 | a mapping is accepted exactly if it names only columns of the file and known fields, no field twice and both required ones, whatever it leaves out; the first of these that fails decides the refusal |
| Columns.DetectorReports | backend/app/imports/columns.py:51-58 | the detector reports nothing exactly when every field has at most one source and every required field has one |
| Columns.SuggestionAccepted | backend/app/imports/columns.py:62-76 | the suggestion passes validation exactly when no two different headers share a field and the required fields are recognised |
| Columns.DetectorAgreesWithValidator | backend/app/imports/columns.py:40-76 | the detector reports nothing exactly when its suggestion passes and no recognised header repeats; for distinct headers the two agree |
| Columns.RepeatedHeaderDiffers | backend/app/imports/columns.py:46-51 | a file on which they differ |

## Left out

- Agent.AgentClient.constructor: asks for a queue with a capacity of at least one; with less, the agent's first insertion never returns.
- Agent.AgentClient.PollJobs: what a worker that was set up only in part does with its half of the pipe is not modelled, nor that the server may have taken a claim whose answer was lost.
- Agent.AgentClient.RunCycle: whether a heartbeat is due is not modelled; one that is not due goes through.
- JobRuns.JobRun.Guard: what the server answers and when the clock is read are choices of the environment inside each step, so a contract says what follows on an answer, not which one comes.
- ResetData.Database.DeleteDisabledUsers: which rows go with a deleted user is left open, within the tables that refer to "users"; a deletion is refused only by a reference, and other database faults are not modelled.
- Collectors.Discover: takes the probe results in completion order; the ping and TCP probes of a single host, the thread pool's limit and scans without a progress callback are not part of it, and a send on a pipe whose other end is closed is not distinguished from a message that is never heard.
- Agent.AgentClient.Enqueue: a random identifier is one that was never issued before; collisions are not modelled.
- JobRuns.JobRun.WindUp: killing the process tree is one step that always succeeds.
- Queue.DurableQueue.Ready: the select statements and transactions of SQLite are single steps; database faults are modelled only where the supervision adds or acknowledges an observation.
- Backend.Server.Post: authentication, rate limiting, payload limits and the processing of discovered devices are refusals without effect; a refusal counts as a network failure, as the agent treats it.
- RateLimit.OperationRateLimiter.Check: the agreement with the history is stated for clock readings in order; the code reads the clock before it takes the lock, so readings can be swapped between threads. What a call does to the deques is stated for any readings.
- Networks.ValidatePrivateNetwork: which texts parse and which networks are private is left to an arbitrary address book; a comma-separated string counts as its list of entries.
- Matching.FuzzyStage: the similarity ratio is an arbitrary function of the two values.
- Matching.SelectSubnetRule: the order of errors among several unparsable texts is not distinguished.
- Hierarchy.Store.Create: database constraints beyond the checks in the code may reject any request; the audit log is not modelled.
- Columns.DetectMapping: the alias table and the Unicode normalisation of headers are an arbitrary function from headers to fields.
- Text beyond ASCII, floating-point rounding of time stamps, and the error texts sent with a failed job.
- Enrolment, credentials, the Windows service, HTTP, sessions, the scheduler and the user interface.
- Hostname rules, address-table parsing and file parsing would add only easy members.
