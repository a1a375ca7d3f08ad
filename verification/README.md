# Verification of the quiz server

A Dafny model of the parts of the quiz server that carry state or a protocol, and proofs about every
run of them. Check it with `dafny verify dfyconfig.toml`.

| file | what it models |
|---|---|
| `Utf8.dfy`, `Message.dfy`, `ByteOrder.dfy`, `Framing.dfy` | the wire codec, `common/src/codec.cpp` |
| `Gateway.dfy` | the incremental receiver of `webapp/server.js` |
| `Library.dfy` | that what is assumed of the cipher and of the JSON library can be met |
| `Connection.dfy`, `Server.dfy` | one connection, and one task and one response per request, `server/src/server.cpp` |
| `ThreadPool.dfy` | the worker pool, `server/src/thread_pool.cpp`, as an interleaving of atomic steps |
| `Auth.dfy` | sessions with lazy deletion, `server/src/auth.cpp` |
| `RoomSchema.dfy`, `QuestionPicker.dfy`, `Draws.dfy`, `Grading.dfy`, `RoomManager.dfy`, `RoomStatistics.dfy` | the exam rooms, `server/src/room.cpp` over the tables of `data/schema.sql` |
| `RoomSpec.dfy`, `RoomInvariant.dfy`, `RoomMoves.dfy`, `RoomRuns.dfy`, `RoomPapers.dfy`, `RoomStuck.dfy`, `RoomGrades.dfy`, `RoomMarks.dfy`, `RoomFaultless.dfy`, `RoomLife.dfy`, `RoomRights.dfy` | what one call does to the tables, and what holds over whole runs of calls |
| `SecondPaper.dfy`, `LatePaper.dfy`, `LostRow.dfy` | runs in which the code does not keep what its comments promise |

How it is modelled:

- Every public method of `RoomManager` and `AuthService` holds one mutex, so a call is one step. Each method of
  the two classes is proved to turn the tables into what `Next` says, and the lemmas are about runs of `Next`.
- Each call takes the set of SQL statements that fail while it runs, and of rows that a scan does not deliver because it
  broke, which the code takes for the end of the result. Nothing is assumed about that set, so every theorem without a
  hypothesis on it holds whatever SQLite refuses. Partial effects and rollback are part of the model.
- `ORDER BY RANDOM()` and `std::shuffle` are nondeterministic; time, tokens and the password functions are parameters.
- Foreign keys are off, as `server/src/room.cpp:25` leaves them; ids are never used twice.
- A socket has a schedule of events: short transfers, EINTR, and errors. Reading and writing are proved for every schedule.
- The cipher is a pair of functions of which decrypt undoes encrypt, with ciphertexts of
  16 * (n / 16 + 1) bytes (the padding of section 6.3 of RFC 5652). Printing and parsing JSON gives `Reread`: as
  nlohmann's library does it, a signed number that is not negative comes back unsigned, and an infinity or NaN comes back
  as null; all else comes back as it was. Doubles are their 64 bits.
- A question whose `options_json` does not parse makes the parser throw, and the exception leaves the call where it is.
- The host is little-endian. Scores are `real`.

What the proofs show to differ from what the code or its comments say:

- "Cannot get it twice" (`server/src/room.cpp:491`) is false when the SELECT of `load_exam_questions` fails: its empty
  result reads as no paper. `TwoPapersForOneStudent` is such a run, `SecondPaperExactly` says exactly when it happens, and
  `OnePaperPerStudent` that it happens in no other way.
- A paper returned after an earlier failed attempt carries times that are not the stored ones (`IssuedTimesAreStoredTimes`).
- A first paper issued for an exam that was already graded rewrites `total_questions` (`PaperAfterGradingRewritesTotal`).
  `PaperAfterGrading` is a run in which both happen. In a run without faults neither does (`FaultlessGradesAreFrozen`,
  `FaultlessTimesAreStored`), and both need an earlier failure (`RewriteNeedsAFailure`, `OtherTimesNeedAFailure`).
- One question whose options do not parse can stop the server from handing out papers at all: the exception leaves the
  transaction open and every later BEGIN IMMEDIATE fails (`NoPaperAfterAThrow`). It can happen exactly when the bank has such
  a question (`SticksExactly`), and in one call exactly when a SELECT of that call may deliver one (`CanThrowExactly`).
- The timer and the expiry test part company 2^31 seconds after the start at the earliest, and 2^32 seconds after it the
  timer shows the full time again (`TimerAgreesWithExpiry`, `TimerWrapsAround`).
- A message of exactly 1,048,576 bytes of JSON is accepted by `encode_frame` and refused by `read_frame`
  (`OversizedStopsTheStream`).
- `is_valid_utf8` also accepts overlong forms, surrogates and code points above U+10FFFF (`StrictlyMore`, `ExcessUnits`).
- A grading scan that breaks is not noticed: the exam is graded, for good, as if the rest had not been answered
  (`BrokenScan` with `SubmitGradesLastChoices` and `GradeIsFinal`). `MarksSurviveExactly` says when that makes no difference,
  and `GradeWithoutTheAnswer` is a run in which it does.
- A practice run counts repeated questions and questions that do not exist, an exam does not: the two agree exactly for
  lists of distinct bank questions and for lists without any (`PracticeAgrees`). `PracticeCountsRepeats` is a list on which
  they differ.
- `logout` reports success while the session row stays, when the DELETE fails at its step (`LogoutMayLeaveTheSession`).
- If the clock goes back, the lazy deletion of sessions can be observed; `DeletionShowsExactly` says when,
  and `ClockGoingBackShows` is such a run.
- A second caller of `shutdown` returns at once, whatever is still queued (`SecondCallerMayReturnEarly`).
- With more than one worker, responses on one connection may overtake each other (`OrderExactly`).
- The comment at `server/src/room.cpp:1174` promises a cascade, which does not take place with foreign keys off; the one at
  `server/src/room.cpp:145` asks for an IN_PROGRESS room, while the code lets WAITING rooms be joined as well.

## Model

| member | source | states |
|---|---|---|
| Utf8.IsValidUtf8 | common/src/codec.cpp:17-44 | The index loop stays in bounds and accepts exactly the strings that split into units with lead 00-7F, C2-DF, E0-EF or F0-F7 and 0 to 3 continuation bytes |
| Utf8.UnitsExactly | common/src/codec.cpp:22-38 | The units of those splits, byte by byte |
| Utf8.SplitIsUnique | common/src/codec.cpp:17-44 | A string splits into such units in at most one way |
| Utf8.RecognisedConcat | common/src/codec.cpp:17-44 | After a recognised prefix, the whole is recognised exactly when the rest is: the accepted set is closed under concatenation and under cutting off accepted prefixes |
| Utf8.RfcExactly | common/src/codec.cpp:17-44 | The well-formed strings of section 4 of RFC 3629 are exactly the recognised ones all of whose units are in the RFC's table |
| Utf8.ExcessUnits | common/src/codec.cpp:22-34 | A recognised unit is outside the RFC exactly when it is overlong, a surrogate, or above U+10FFFF |
| Utf8.StrictlyMore | common/src/codec.cpp:22-34 | Two recognised strings that are not well-formed |
| Message.FromJsonAcceptsExactly | common/src/codec.cpp:82-183 | Which JSON values are read as messages, said without an order of checks; that each field read is the member of that name, absent meaning empty; and which name stands for which type and status |
| Message.MessageRoundTrip | common/src/codec.cpp:185-196 | Writing and reading succeeds exactly when the action is non-empty, data is an object or null, and a response has a status; it gives the message back with null data made an empty object |
| Message.PrintedRoundTrip | common/src/codec.cpp:185-196 | The same through the JSON text: success for the same messages, and the message arrives with its data printed and parsed |
| Message.ArrivesAsItWas | common/src/codec.cpp:185-196 | A sendable message arrives with every member as it was, but for null data made an empty object and data printed and parsed |
| Message.RereadIsIdempotent | common/src/codec.cpp:229-245 | Data that has come out of the parser prints and parses back unchanged |
| Message.ReadingIsIdempotent | common/src/codec.cpp:96-196 | Reading, writing and reading again is reading, for every JSON value |
| Message.UnknownKeysAreIgnored | common/src/codec.cpp:96-183 | Two objects that agree on the eight known members are read alike, errors included |
| ByteOrder.PrefixRoundTrip | common/src/codec.cpp:46-56 | The four-byte prefix and the length determine each other, for all 2^32 of them |
| ByteOrder.MostSignificantFirst | common/src/codec.cpp:46-56 | The length of a prefix is the number its four bytes are, the most significant first |
| ByteOrder.StoreSwapped | common/src/codec.cpp:46-49 | On a little-endian host to_be32 and memcpy write the length most significant byte first |
| ByteOrder.LoadSwapped | common/src/codec.cpp:51-53 | and memcpy and from_be32 read it that way |
| Framing.ReadExact | common/src/codec.cpp:198-213 | Under any schedule, unless an error occurs, the buffer holds the first min(length, available) bytes of the stream at the offset, the rest of the buffer is untouched and exactly these bytes are consumed; the loop ends |
| Framing.WriteExact | common/src/codec.cpp:215-227 | Under any schedule all bytes are written in order, or an error occurred and a prefix was; the loop ends |
| Framing.ReadFrame | common/src/codec.cpp:321-352 | What is read, or which error is given, and what is left of the stream are those of the frame at its front, whatever the schedule; if the socket fails, it may instead be one of the two read errors with some front part of the frame taken |
| Framing.WriteFrame | common/src/codec.cpp:354-366 | A frame of four bytes or more is appended whole unless an error occurs, and then a prefix of it |
| Framing.EncodeFrame | common/src/codec.cpp:229-261 | The frame is the big-endian length and the ciphertext of the JSON text; exactly the texts over 1 MiB or not UTF-8 are refused |
| Framing.EncodedExactly | common/src/codec.cpp:229-261 | Exactly the messages with more than 1,048,576 bytes of JSON or JSON that is not UTF-8 are refused; the frame is four bytes that announce the rest, and the ciphertext |
| Framing.DecodeFrame | common/src/codec.cpp:263-319 | The answer or error of each check in order |
| Framing.DecodedExactly | common/src/codec.cpp:263-319 | Accepted is exactly a frame of the length it announces that decrypts to between 1 and 1,048,576 bytes of UTF-8 which parse to a message; and that message is the result |
| Framing.FrameRoundTrip | common/src/codec.cpp:229-319 | On every message encode_frame accepts, decode_frame succeeds exactly when the message is sendable and then gives it as it arrives |
| Library.SoundLibrariesExist | common/src/codec.cpp:229-261 | The assumptions on cipher and JSON library are met by some library, for every message and every length of its text up to the limit, so the round trips speak of something |
| Framing.ReadableExactly | common/src/codec.cpp:339-342 | read_frame takes what encode_frame made exactly when the JSON text is under 1,048,576 bytes: padding makes the bound tight |
| Framing.ReadAllOfConcat | common/src/codec.cpp:321-352 | A stream of readable frames is read back as those frames and then "EOF" |
| Connection.Connection.Send | server/src/server.cpp:223-234 | What goes onto the wire is the encoded message, or nothing if it cannot be encoded, or a front part of it if the socket fails |
| Connection.Connection.ReadLoop | server/src/server.cpp:236-260 | For every stream, schedule and moment of a stop() from another thread: the messages handed on are those of the frames at the front of the stream that decode, in order; all of them unless stopped or the socket fails; the loop ends and the connection is no longer alive |
| Connection.StreamRoundTrip | common/src/codec.cpp:229-352 | For any list of messages encode_frame accepts with JSON under 1 MiB: the frames in the bytes written are exactly the frames sent, then comes "EOF", and the messages that decode are the sendable ones as they arrive |
| Connection.Exchange | server/src/server.cpp:223-260 | End to end: what is sent under any schedule of short writes and EINTR and read under any other schedule is received, in order; when all messages are sendable, each of them as it arrives; a prefix if the reader's socket fails or it is stopped |
| Connection.OversizedStopsTheStream | common/src/codec.cpp:234-245 | At exactly 1 MiB of JSON the sender accepts what the receiver refuses, and nothing after it is read |
| Connection.ReceiversAgree | webapp/server.js:95-123 | On every byte stream the ciphertexts the blocking receiver finds are a prefix of those the gateway finds; it stops only at a payload over 1 MiB, and the two are equal exactly when there is none |
| Gateway.DecodeFrames | webapp/server.js:95-123 | One run delivers the messages of all complete frames that decrypt and parse, in order, and leaves what is behind them; FrontFrame and GatewayRoundTrip say which those are |
| Gateway.FrontFrame | webapp/server.js:102-119 | A frame at the front of any stream delivers its JSON value if it decrypts and parses and nothing otherwise, and the rest of the stream is treated as if it had come alone |
| Gateway.LeftoverIsIncomplete | webapp/server.js:98-122 | The leftover never holds a complete frame |
| Gateway.SplitConcat | webapp/server.js:129-134 | Splitting a stream is splitting its front, and then the leftover with what follows |
| Gateway.SplitKeepsBytes | webapp/server.js:95-123 | The frames found, framed again, followed by the leftover are the stream |
| Gateway.FeedIsOneRun | webapp/server.js:129-134 | Feeding chunks one after another is one run on all bytes |
| Gateway.ChunkingDoesNotMatter | webapp/server.js:129-134 | Any two ways of cutting the same bytes into chunks deliver the same messages and leave the same bytes |
| Gateway.Bridge.OnData | webapp/server.js:129-134 | After every chunk, what was delivered and what is buffered are those of one run on all bytes received |
| Connection.GatewayRoundTrip | webapp/server.js:95-134 | For any list of messages encode_frame accepts and any chunks their bytes come in, the gateway delivers exactly the JSON of each message, in order, and keeps no byte back |
| Connection.Forward | webapp/server.js:127-134 | The same through the data callback, chunk by chunk |
| Server.RunTask | server/src/server.cpp:148-183 | The response is of type response, carries the current time and a non-empty action whenever the request did; action and session are the handler's or else the request's; status, data and error texts are the handler's, or those of UNKNOWN_ACTION or HANDLER_ERROR |
| Server.ReplyIsReadable | server/src/server.cpp:158-183 | A client can decode the response exactly unless the handler left the status out or data that is no object; it then reads a response to that action and session |
| Server.RunKeepsInv | server/src/server.cpp:145-186 | In every interleaving, requests are accepted at most once, and what was sent are the responses of the finished tasks, each to the connection its request came from |
| Server.TasksAreRequests | server/src/server.cpp:145-186 | Whatever a worker runs is the task of a request that has arrived, so it can always finish |
| Server.PoolRuns | server/src/server.cpp:145-186 | What the pool does in a run of the server is a run of the pool, so all that is proved of those holds here |
| Server.OneResponsePerRequest | server/src/server.cpp:145-186 | In every reachable state a request has been answered at most once, on its own connection, and has been answered exactly when it was accepted and is neither queued nor running |
| Server.ShutdownAnswersAll | server/src/thread_pool.cpp:26-36 | When the first caller of shutdown has returned, exactly the accepted requests have been answered: their response was handed to send |
| Server.LateRequestsAreDropped | server/src/thread_pool.cpp:17-24 | A request that arrives once the pool is stopping is in no later state accepted or answered |
| Server.OneWorkerKeepsOrder | server/src/thread_pool.cpp:38-50 | A pool of one worker sends responses in the order in which requests were accepted |
| Server.MoreWorkersMayOvertake | server/src/thread_pool.cpp:38-50 | For any pool of two or more and any two requests, a run in which the second is answered and the first is not |
| Server.OrderExactly | server/src/thread_pool.cpp:5-50 | Every run keeps responses in the order of acceptance if and only if the pool was asked for at most one worker |
| ThreadPool.StepKeepsInv | server/src/thread_pool.cpp:17-50 | Every step of every thread, spurious wakeups included, keeps the pool's invariant |
| ThreadPool.NoLostWakeup | server/src/thread_pool.cpp:17-50 | In no reachable state do tasks wait while all live workers sleep and no notification is pending; nobody sleeps after stopping_ is set unless a notify_all is pending |
| ThreadPool.Conservation | server/src/thread_pool.cpp:17-50 | The tasks taken, followed by the queue, are the tasks accepted, in order; each accepted task is queued, running or done, as often as it was accepted |
| ThreadPool.HistoryGrows | server/src/thread_pool.cpp:17-36 | Accepted, started and finished tasks only grow; nothing is accepted once stopping; nothing finishes after the first caller has returned |
| ThreadPool.StoppingDecreases | server/src/thread_pool.cpp:26-50 | Once stopping, every step but a refused enqueue and a second shutdown strictly decreases a measure, and those two change nothing |
| ThreadPool.NeverStuck | server/src/thread_pool.cpp:26-50 | Until the first caller has returned, some such step is possible |
| ThreadPool.ShutdownEnds | server/src/thread_pool.cpp:26-50 | After stopping_ is set, a run has at most as many such steps as the measure says |
| ThreadPool.ReturnedMeansDone | server/src/thread_pool.cpp:26-36 | When the first caller has returned, the queue is empty and all accepted tasks are done, then and ever after |
| ThreadPool.DoneExactlyWhenIdle | server/src/thread_pool.cpp:26-50 | In every reachable state, and so when a second caller returns, all that was accepted is done if and only if nothing is queued and nobody runs |
| ThreadPool.SecondCallerMayReturnEarly | server/src/thread_pool.cpp:26-31 | For a pool of any size, a run in which a second shutdown returns, having changed nothing, while a task is still queued |
| ThreadPool.Pool.EnqueueLocked | server/src/thread_pool.cpp:17-22 | The locked part of enqueue is the Enqueue step: refused once stopping, else appended |
| ThreadPool.Pool.NotifyOneStep | server/src/thread_pool.cpp:23-23 | notify_one wakes one sleeper of the system's choice, if there is one |
| ThreadPool.Pool.ShutdownLocked | server/src/thread_pool.cpp:26-31 | Only the first caller sets stopping_ and goes on |
| ThreadPool.Pool.NotifyAllStep | server/src/thread_pool.cpp:32-32 | notify_all wakes exactly the sleepers |
| ThreadPool.Pool.WorkerLook | server/src/thread_pool.cpp:38-47 | With the lock, a worker takes the front task, sleeps, or leaves, as the predicate of the wait says |
| ThreadPool.Pool.WorkerFinish | server/src/thread_pool.cpp:48-49 | A finished task is recorded and its worker looks again |
| Auth.AuthService.RegisterUser | server/src/auth.cpp:49-84 | The user stored with the hash of the password and the role, only for a new name and a role of the table; nothing changes otherwise |
| Auth.AuthService.LoginUser | server/src/auth.cpp:86-141 | An unknown name or a password that does not verify gets nothing and changes nothing; success inserts one session of that user for now + ttl, and the answer has the user's stored role |
| Auth.AuthService.LogoutToken | server/src/auth.cpp:143-159 | The row is deleted when the DELETE runs; success is reported whenever it could be prepared |
| Auth.AuthService.ValidateToken | server/src/auth.cpp:161-204 | Whom a success names, with the stored role, and only before expiry; when it succeeds, and that an expired row is deleted then and only then |
| Auth.RunsAgree | server/src/auth.cpp:86-204 | After any calls with any faults under any clock, the rows are exactly the sessions of the deletion-free log that no validate has met past their expiry |
| Auth.ValidateExactly | server/src/auth.cpp:161-204 | After any calls under any clock, a token is valid exactly when its latest login was not followed by a logout, has not expired, and was not met past its expiry by a working validate |
| Auth.LazyDeletionIsInvisible | server/src/auth.cpp:161-204 | Under a clock that never goes back the last condition can be dropped: the answers are those of the deletion-free log |
| Auth.DeletionShowsExactly | server/src/auth.cpp:188-199 | Under any clock, a validate in between changes a later answer if and only if it deletes a session of that token that at the later reading has not expired |
| Auth.ValidateNamesTheUser | server/src/auth.cpp:166-203 | The answer is determined, and it is the logged session's |
| Auth.LoginNeedsAFreeToken | server/src/auth.cpp:118-137 | With right credentials and no fault, login fails exactly when the token's latest login was neither logged out nor deleted for having expired |
| Auth.RegisteredExactly | server/src/auth.cpp:49-84 | Exactly which calls add a user, and what is stored |
| Auth.LoggedInExactly | server/src/auth.cpp:86-141 | Exactly which calls add a session: a login whose password verifies against the stored hash; and until when it is valid |
| Auth.SessionsEndExactly | server/src/auth.cpp:143-200 | Exactly which calls remove a session |
| Auth.SessionsWereEarned | server/src/auth.cpp:86-141 | Over any calls, every session stems from a login for its token, by its user, with a password that verified, and expires ttl after that login |
| Auth.ValidTokensAreEarned | server/src/auth.cpp:49-204 | Over any calls, whoever a valid token names registered under that name and role, and logged in for the token with a password that verifies against the hash of the one registered |
| QuestionPicker.SelectRandom | server/src/room.cpp:218-226 | ORDER BY RANDOM() LIMIT n: distinct rows of the pool, min(n, size) of them |
| QuestionPicker.PickQuestions | server/src/room.cpp:209-291 | For any bank, settings and faults: distinct questions of the bank with readable options, as many as the fetches and the top-up can give up to the total, the tiers kept when they fit and not exceeded when they do not; or an exception, only if a tier that is read, or the bank when the top-up reads, has a question whose options do not parse, and always if there are not enough that do |
| Draws.ThrowsExactly | server/src/room.cpp:218-282 | That condition is exact: it holds if and only if some rows the four SELECTs may deliver contain such a question |
| Draws.PicksExactly | server/src/room.cpp:218-282 | and returning without an exception is possible if and only if some rows they may deliver contain none: every tier read, and the bank in all, has enough questions that parse |
| QuestionPicker.PaperSizeIsExact | server/src/room.cpp:497-513 | For any room settings, negative ones included, the list picked has pairwise distinct questions: min(total, bank size) if there is a total, else min(sum of the counts, bank size) if that is positive, else min(10, bank size) |
| QuestionPicker.PickedAsAsked | server/src/room.cpp:497-513 | For the settings stored with the room: that size, and the room's own counts, or 4, 4 and 2 without any, honoured as far as the bank goes |
| QuestionPicker.FaultsOnlyShorten | server/src/room.cpp:209-291 | With faults no more is picked, and nothing only if the bank is empty or the top-up delivered nothing |
| QuestionPicker.QuotasSurvive | server/src/room.cpp:214-289 | Non-negative counts that sum to at most the total: at least min(easy, available) EASY questions, min(medium, available) MEDIUM ones and min(hard, available) HARD ones |
| QuestionPicker.QuotasAreExact | server/src/room.cpp:214-289 | Counts that sum to the total with enough of each difficulty are met exactly, difficulty by difficulty |
| QuestionPicker.OvershootKeepsToTheTiers | server/src/room.cpp:285-289 | Whatever fails, when the tiers deliver the total or more, the trimmed list has exactly the total and no difficulty beyond its count |
| Grading.UpsertOverrides | server/src/room.cpp:556-576 | Saving a list overrides that exam's sheet by the list's last choice per question and touches no other exam |
| Grading.LastChoiceIsListed | server/src/room.cpp:556-576 | The last choice for a question is the option at its last position in the list, and is none exactly when the question is not listed |
| Grading.GradeRows | server/src/room.cpp:607-629 | The loop counts the answered bank questions among the rows delivered, and those answered right |
| Grading.MarksSurviveExactly | server/src/room.cpp:607-631 | A scan that breaks leaves the marks as they should be if and only if no counted row is lost, or all are, none was right and the fallback is their number |
| Grading.MarksRange | server/src/room.cpp:630-631 | Scores lie in [0, 10], and no more is right than counted |
| Grading.MarksAreOverTen | server/src/room.cpp:607-631 | From the answers table and the bank: correct is the number of delivered answers that are the bank's, total the number that are in the bank, and score times total is ten times correct |
| Grading.AllRightIsTen | server/src/room.cpp:630-631 | So the score is ten exactly when all answers that count are right, and zero exactly when none is |
| Grading.PracticeCountsPositions | server/src/room.cpp:752-765 | A practice run counts the positions of the list whose question is in the bank and whose option is right |
| Grading.PracticeAgrees | server/src/room.cpp:752-768 | For every list on an empty table, an exam and a practice run give the same correct count, total and score if and only if the list names distinct bank questions, or none of the bank |
| RoomInvariant.NextKeepsInv | server/src/room.cpp:34-1068 | Every call with any faults keeps: one exam per student and room, ids below the counters, scores on the scale, end_at == start_at + duration while the room exists |
| RoomInvariant.OpeningEffect | server/src/room.cpp:435-491 | Up to picking, get_exam_paper has at most inserted the exams row the student did not have |
| RoomMoves.NextMoves | server/src/room.cpp:34-1068 | The frame of each kind of call: which tables and rows it may touch, and how |
| RoomManager.RoomManager.constructor | data/schema.sql:32-108 | Empty tables meet the invariant |
| RoomManager.RoomManager.CreateRoom | server/src/room.cpp:34-79 | The row inserted and its id, unless a statement fails or the code is in use |
| RoomManager.RoomManager.JoinRoom | server/src/room.cpp:139-186 | Joined exactly when the room waits or runs and the password matches; joining twice changes nothing |
| RoomManager.RoomManager.StartRoom | server/src/room.cpp:188-207 | Only its creator starts a waiting room; the time is stored |
| RoomManager.RoomManager.FinishRoom | server/src/room.cpp:1194-1252 | Only its creator finishes a running room |
| RoomManager.RoomManager.DropRoom | server/src/room.cpp:1134-1192 | Only its creator deletes a room that is not running; every other table is as before |
| RoomManager.RoomManager.EnsureExamRow | server/src/room.cpp:346-380 | The exam found, or inserted with the given times; a failing lookup ends in a refused insert |
| RoomManager.RoomManager.LoadExamQuestions | server/src/room.cpp:382-409 | The paper's bank questions in question_order, or nothing when the SELECT fails; an exception exactly when some of their options do not parse |
| RoomManager.RoomManager.SaveExamQuestions | server/src/room.cpp:412-433 | Rows numbered from 1, and success exactly when no statement failed and no row was there |
| RoomManager.RoomManager.InTransaction | server/src/room.cpp:481-546 | Leaving without a paper puts papers and exams back; with one, the rows and the total are written and the paper is the list drawn; an exception leaves the transaction open |
| RoomManager.RoomManager.GetExamPaper | server/src/room.cpp:435-547 | The tables after the call, exactly when it succeeds and when it throws, the paper with this call's times, only for a participant of a running room; without faults it has the questions the room's settings ask for; the invariant is kept |
| RoomManager.RoomManager.SubmitAnswers | server/src/room.cpp:549-578 | The answers before the first failing statement are saved, all of them exactly when it succeeds |
| RoomManager.RoomManager.SubmitExam | server/src/room.cpp:580-654 | The tables after the call and exactly when it succeeds; the marks returned are those of the stored answers over ten, and they are what is stored |
| RoomManager.RoomManager.SubmitPractice | server/src/room.cpp:739-785 | The marks count the right positions, over ten; they are stored in the row if it is the caller's, and no other row changes; a failing lookup leaves everything as it was |
| RoomManager.RoomManager.AutoSubmitExpiredExams | server/src/room.cpp:972-1068 | Each exam is as it was, or was open and expired and now has the marks of its stored answers over ten; which those are, the number of them as result, and that the invariant is kept |
| RoomManager.RoomManager.GetTimerStatus | server/src/room.cpp:1070-1132 | Given exactly for an exam whose room is there: its stored start, the room's duration, the time, and the 32-bit difference |
| RoomManager.RoomManager.GetRoomResults | server/src/room.cpp:787-830 | Every graded exam of that room the scan delivers is a row once; for a non-empty result highest and lowest are the true extremes of the stored scores in spite of the sentinels, the average is their mean and lies between them, pass_rate is 100 times the share of scores of at least 5 |
| RoomStatistics.Summarise | server/src/room.cpp:803-828 | The figures of a list of rows with scores on the scale are right, and zero when there is none |
| RoomStatistics.SumIsTheSum | server/src/room.cpp:803-824 | The sum behind the average is the sum of the stored scores |
| RoomStatistics.TimerAgreesWithExpiry | server/src/room.cpp:1111-1129 | remaining is negative exactly when auto-submit's expiry test holds, if and only if less than 2^31 seconds have passed or their low 32 bits exceed the duration; within 2^31 seconds there is no overflow |
| RoomStatistics.TimerWrapsAround | server/src/room.cpp:1125-1129 | After 2^32 seconds the timer shows the full time for an exam long expired |
| RoomRuns.RunKeepsInv | server/src/room.cpp:34-1068 | The invariant holds in every reachable state, whatever fails |
| RoomRuns.SeatsStay | server/src/room.cpp:346-380 | An exams row keeps its room, student, start and end for ever |
| RoomRuns.StartIsAReading | server/src/room.cpp:472-475 | Every exam started at the clock reading of an earlier get_exam_paper |
| RoomRuns.TimerInRuns | server/src/room.cpp:1111-1129 | In every reachable state, for an exam whose room exists, a clock that has not gone back and fewer than 2^31 seconds: no overflow, and remaining < 0 exactly when an open exam is one auto-submit would grade now |
| RoomPapers.FailureLeavesAtMostAnEmptyExam | server/src/room.cpp:435-547 | A get_exam_paper that fails changes nothing but possibly adds one exams row, for a student who had none, without paper or grade; the transaction is open afterwards exactly when it was or the call threw |
| RoomPapers.SecondPaperExactly | server/src/room.cpp:486-495 | For a student who has a paper, exactly what it takes to be handed another |
| RoomPapers.OnePaperPerStudent | server/src/room.cpp:486-495 | Over every run, a second paper for the same student and room comes only from a call whose loading SELECT failed, and shares no question with the first |
| SecondPaper.TwoPapersForOneStudent | server/src/room.cpp:382-409 | A run in which this happens |
| RoomPapers.IssuedTimesAreStoredTimes | server/src/room.cpp:540-545 | The times on a paper are the stored ones exactly when this call stored them or ran in the same second |
| RoomPapers.RowsStay | server/src/room.cpp:412-433 | Rows of exam_questions are never changed or removed |
| RoomPapers.PaperStays | server/src/room.cpp:412-433 | With the loading SELECT working, an issued paper stays: exactly those questions, in that order |
| RoomPapers.LoadReturnsThePaper | server/src/room.cpp:382-409 | and load_exam_questions returns them in the order issued |
| RoomPapers.NoPaperNeedsAFailure | server/src/room.cpp:475-547 | In every reachable state an exam has no paper only if an earlier get_exam_paper of its student failed |
| RoomPapers.OtherTimesNeedAFailure | server/src/room.cpp:540-545 | In a run, a paper with other times than the stored ones needs a failed load in that call or an earlier failed get_exam_paper |
| RoomStuck.OpenStaysAt | server/src/room.cpp:481-538 | In any run, a call leaves the transaction open only if its SELECTs may deliver a question whose options do not parse, and always if they cannot avoid one; nothing closes it |
| RoomStuck.CanThrowExactly | server/src/room.cpp:486-513 | Whether a get_exam_paper can end in an exception is decided beforehand by the tables, the bank, the room's settings and the faults |
| RoomStuck.CanReturnExactly | server/src/room.cpp:486-513 | and so is whether it can end without one |
| RoomStuck.NoPaperAfterAThrow | server/src/room.cpp:481-485 | Once that has happened no paper is issued in the rest of the run, to anybody |
| RoomStuck.OnlyPickingThrows | server/src/room.cpp:382-409 | Loading a paper never throws, since no question whose options do not parse is ever on one: a call throws just when its picking does |
| RoomStuck.ReadableBankNeverThrows | server/src/room.cpp:229-277 | With a bank whose options all parse no transaction is ever left open |
| RoomStuck.AnyBadQuestionSticks | server/src/room.cpp:229-277 | For every bank with a question whose options do not parse, a run without failing statements that leaves a transaction open |
| RoomStuck.SticksExactly | server/src/room.cpp:481-513 | No run ever leaves a transaction open if and only if the options of all questions of the bank parse |
| RoomGrades.GradesExactly | server/src/room.cpp:580-654 | The only calls that grade an exam are a submit of it that succeeds and a sweep that reaches it; a submit that fails changes no exams row |
| RoomGrades.GradeIsFinal | server/src/room.cpp:634-653 | Once set, submitted_at, score and correct_count never change |
| RoomGrades.GradedOnce | server/src/room.cpp:1042-1064 | In every run at most one call grades a given exam |
| RoomGrades.GradeStays | server/src/room.cpp:523-530 | A step leaves a graded row exactly as it is unless it issues a paper of another size for it |
| RoomGrades.GradedWithPaperIsFrozen | server/src/room.cpp:523-530 | A graded exam with a paper never changes again while the loading SELECT works, total_questions included |
| RoomGrades.PaperAfterGradingRewritesTotal | server/src/room.cpp:523-530 | Without a paper it does: the first paper rewrites total_questions |
| RoomGrades.RewriteNeedsAFailure | server/src/room.cpp:523-530 | In a run, a call changes a graded exam only by issuing a paper for it, and only if its load failed or an earlier get_exam_paper of the student failed |
| LatePaper.PaperAfterGrading | server/src/room.cpp:475-545 | A run in which a failed COMMIT leaves an empty exam, which is submitted and then given a paper: the graded row changes, and the paper's times are not the stored ones |
| RoomFaultless.FaultlessExamsHavePapers | server/src/room.cpp:475-547 | In a run without faults every exam has its paper, unless an exception has left a transaction open or there is no question |
| RoomFaultless.FaultlessIssuesExactly | server/src/room.cpp:435-547 | In a run without faults, get_exam_paper hands out a paper exactly to a participant of a running room who has no exam yet, when there is a question, picking does not throw and no transaction was left open |
| RoomFaultless.PapersAreAsAsked | server/src/room.cpp:435-547 | In any run, a paper handed out by a call without faults is stored as drawn with its size as the exam's total, and has the questions asked for when the room was created |
| RoomFaultless.FaultlessGradesAreFrozen | server/src/room.cpp:523-530 | In a run without faults a graded exam never changes again, total_questions included |
| RoomFaultless.FaultlessTimesAreStored | server/src/room.cpp:540-545 | In a run without faults every paper carries the stored times |
| RoomGrades.SavedIsAPrefix | server/src/room.cpp:549-578 | A submit_answers that fails midway has the effect of one on a prefix of its list |
| RoomGrades.SheetIsHistory | server/src/room.cpp:549-578 | In every reachable state an exam's answers are those of all lists saved for it, one after the other, last choice per question |
| RoomGrades.SubmitGradesLastChoices | server/src/room.cpp:607-631 | After any history, the grade of submit_exam is that of all lists saved and the final one, last choice per question, counting bank questions, as far as the grading scan delivers them, with the list's length as total when none counts; and exactly when it is the grade of all of them |
| RoomGrades.SweepGradesLastChoices | server/src/room.cpp:1010-1040 | and that of auto-submit is that of all lists saved, with the stored total when none counts; again with the exact condition for it to be the grade of all of them |
| RoomMarks.StoredGradeIsOverTen | server/src/room.cpp:607-654 | In any run, whenever an exam gets a grade, by submit or sweep, the row stored then has the marks of its stored answers over ten, and the time of the call |
| RoomGrades.LosingARightRowShows | server/src/room.cpp:619-629 | In any run, a submit whose scan loses a right answer stores a grade that is not that of all answers |
| LostRow.GradeWithoutTheAnswer | server/src/room.cpp:619-629 | A run in which that happens |
| RoomGrades.FirstSubmitMarksLikePractice | server/src/room.cpp:752-768 | With nothing saved before and an unbroken scan, submit_exam gives the marks of submit_practice under the same if and only if |
| RoomGrades.SweepIsExact | server/src/room.cpp:972-1068 | Exactly the exams skipped for a fault remain expired and open, no other row has changed, and sweeping again at the same time would grade the skipped ones and no more |
| RoomGrades.SweepIsComplete | server/src/room.cpp:972-1068 | Without faults no expired exam stays open, a second sweep at the same time changes nothing and counts zero, and the exams counted are those newly submitted |
| RoomLife.RoomsOnlyAdvance | server/src/room.cpp:188-207 | Over every run a room's code, creator, password, duration and settings are fixed, its status only advances, its start time stays once set, and a deleted room never comes back |
| RoomLife.ExamsAreOfStartedRooms | server/src/room.cpp:460-470 | Every exam is of a room that had been started and of a student who had joined it |
| RoomRights.CreatedExactly | server/src/room.cpp:34-79 | Exactly which calls add a room, and every column of it |
| RoomRights.DroppedExactly | server/src/room.cpp:1134-1192 | Exactly which calls remove a room: its creator's, while it is not in progress |
| RoomRights.StartedExactly | server/src/room.cpp:188-207 | Exactly which calls start a room: its creator's, while it waits; and with the time of the call |
| RoomRights.FinishedExactly | server/src/room.cpp:1194-1252 | Exactly which calls finish a room: its creator's, while it is in progress |
| RoomRights.JoinedExactly | server/src/room.cpp:139-186 | Exactly which calls add a participant: a join with the room's password before the room is finished |
| RoomRights.RoomsWereCreated | server/src/room.cpp:34-79 | In every reachable state a room has the creator, password, duration, settings and code of the create_room that made it |
| RoomRights.CodesAreUnique | data/schema.sql:34-34 | In every reachable state no two rooms have the same code |
| RoomRights.OnlyCreatorsStart | server/src/room.cpp:188-207 | In every reachable state a room that no longer waits was started by its creator, at the time it carries |
| RoomRights.OnlyCreatorsFinish | server/src/room.cpp:1194-1252 | In every reachable state a finished room was finished by its creator |
| RoomRights.ParticipantsKnewThePassword | server/src/room.cpp:139-186 | In every reachable state each participant joined by a call with the password the room had |

## Left out

- The cipher, key handling, password hashing and token generation: parameters with the properties named above.
- Sockets beyond byte streams, the accept loop, connection teardown, logging, the static file server, the user interfaces.
- The handlers of `server/src/main.cpp`: field extraction and response building; `Server.Outcome` is whatever a handler returns.
- `list_rooms`, `get_room_details`, `get_user_history`: they read the tables and change nothing, and no other call depends on what they read.
- `start_practice` and `pick_questions_filtered`: rows of practice runs are there when a run of the model starts, and none are added.
- Columns nothing in the model reads: names, descriptions, topics, the texts of questions and options, `joined_at`, `updated_at`.
- Room codes: two rooms by one creator in the same second clash, as the UNIQUE column makes them; the text of the code is not built.
- A `load_exam_questions` that breaks after its first row: its caller only asks whether there is a row.
- A failing ROLLBACK, and a database that other processes write.
- RoomStuck.NoPaperAfterAThrow: SQLite may roll a transaction back by itself, on a full disk, an I/O error or lack of memory; that would close one left open, and undo what was written in it, and is not part of this model.
- RoomStuck.OpenStaysAt: "nothing closes it" is said without that.
- What is lost when the server stops with a transaction left open: the model follows what the one connection sees.
- Exceptions other than the one for options that do not parse.
- Several clock readings inside one call are taken as one.
- The 32-bit overflow of easy + medium + hard, and of ids and counts.
- Floating-point rounding of scores and averages.
- Partial frames left on the wire by a failed write are stated by `Framing.WriteFrame`, and not what a peer then makes of them.
- JavaScript reads every number as a double; the gateway's values are those the parser of the server would give.
- A dump that throws on strings that are not UTF-8, and the wording of library errors.
- Tasks that throw, and the fairness of the scheduler: the pool's steps are taken in any order, and each lemma about shutdown counts the steps that do something.
- Encode and decode work on bytes as numbers below 256, so byte buffers are sequences in the codec and one array in `ReadExact`.
