# A multiset of integers kept by a tree of worker processes

The system stores a multiset of integers in a binary search tree. Each node
of the tree is a separate worker process. A node holds one element, its
cardinality, and at most two child workers.

- The **master** owns the first worker, the root of the tree. It serves the
  client's orders one per loop iteration. On an empty set it answers on its
  own. It creates the first worker on the first insertion. Otherwise it
  forwards each order to the first worker and relays the answer.
- The master reads an answer from one of two places:
  - the first worker's own pipe, for HOW_MANY, SUM and PRINT;
  - the pipe shared by all workers, for MINIMUM, MAXIMUM, EXIST and INSERT.
- A **worker** answers point queries on the shared pipe. A point query is
  answered by exactly one worker: the one that holds the element, or the one
  missing the child on its side. A worker answers aggregate queries to its
  parent, after combining its children's answers. It creates a child when an
  insertion reaches a missing child. The new child acknowledges the
  insertion itself.
- The **client** does three things:
  - it checks its command line: the command word, the number of words, and
    the ranges;
  - it writes one order to the master and decodes the answer;
  - for `local`, it counts an element in an array with several threads,
    each over its own contiguous range.

The model has six modules.

- `SearchTree` is the abstract multiset: a tree of (element, cardinality)
  nodes. It has insertion, search, extremes, aggregates and the in-order
  listing, with their lemmas.
- `Protocol` holds the message codes, the client's orders and the master's
  answers. It also gives how each order and answer is laid out as ints on a
  pipe.
- `Channels` has two classes:
  - `Pipe` is an int buffer. A write appends; a read removes the oldest int.
  - `Console` collects the printed lines.
- `Workers` has two halves:
  - `Step`/`Run` state what one order, or a run of orders, does to a subtree;
  - the class `Worker` holds one node's fields and its children. Its
    handlers are proved against `Step`.
- `Masters` also has two halves:
  - `Respond`/`Turn`/`Session`/`Replay` state what client orders do to the
    set;
  - the class `Master` holds the first worker and the pipes. Its handlers
    are proved against `Turn`, and its loop against `Session`.
- `Client` covers three things:
  - command-line parsing (`ParseArgs`), with a round-trip lemma;
  - the framing of an order (`SendData`) and the decoding of an answer
    (`ReceiveAnswer`);
  - the `local` count (`ThreadFunction`, `LaunchThreads`).

How the processes are modelled:

- A parent handing an order to a child process becomes two steps. The order
  is written to the child's input pipe. Then the child's `Serve` runs once.
  What the child sends up stays in its output pipe, for the parent to read.
- Waiting for a child to end after STOP is the child's STOP handler running
  to completion.
- Values are whole numbers (`int`).
- The numeric message codes are defined in two headers, `client_master.h`
  and `master_worker.h`. Neither header is part of this model. `Protocol`
  uses one assignment of codes in which the codes of each kind are pairwise
  distinct, which is all the code relies on.

The code implements the protocol its own comments describe. In several
places the actual wiring contradicts those comments (see "Left out"). In
those places the model follows the comments.

## Model

| member | source | states |
|---|---|---|
| SearchTree.InsertCount | worker.c:476-540 | Inserting v adds exactly one copy of v and changes no other count. |
| SearchTree.InsertOrdered | worker.c:483-540 | Insertion keeps the strict search-tree order: everything left of a node is smaller, everything right is larger. |
| SearchTree.InsertPositive | worker.c:476-482 | After insertion every node still holds its element at least once. |
| SearchTree.InsertNodes | worker.c:476-531 | A new node is created exactly when v was absent. Otherwise the number of nodes is unchanged and v's cardinality goes up by one. |
| SearchTree.InsertAggregates | worker.c:442-541 | Insertion adds one to the total count and v to the sum. |
| SearchTree.FindCount | worker.c:316-365 | The descent on v finds a node exactly when v is held, and that node's cardinality is v's count. |
| SearchTree.MinimumLeast | worker.c:240-250 | The element of the worker with no left child is held, and no held element is smaller. |
| SearchTree.MaximumGreatest | worker.c:267-277 | The element of the worker with no right child is held, and no held element is larger. |
| SearchTree.ListingAscending | worker.c:565-591 | Left subtree, then the node, then the right subtree: on an ordered tree the printed elements are strictly ascending. |
| SearchTree.ListingCounts | worker.c:565-591 | The printed lines are exactly the held elements, each with its count. |
| SearchTree.AggregatesMatchListing | worker.c:144-436 | The totals summed up the tree are the sum of the printed cardinalities, the number of printed lines, and the sum of element times cardinality over the printed lines. |
| SearchTree.InsertAllCount | master.c:513-521 | Inserting a batch adds exactly the batch's multiplicities to the counts. |
| SearchTree.InsertAllSnoc | master.c:513-521 | Inserting a batch and then one more value is inserting the longer batch. |
| SearchTree.InsertAllInvariants | master.c:513-521 | A batch of insertions keeps the tree ordered, with every node holding its element. |
| SearchTree.InsertAllAggregates | master.c:513-521 | A batch adds its length to the total count and its sum to the sum. |
| SearchTree.InsertAllDistinct | master.c:513-521 | A batch of pairwise distinct values, none held before, adds one node per value. |
| SearchTree.AscendingUnique | worker.c:565-591 | Two strictly ascending listings with the same lines are equal, so the printout is determined by the multiset. |
| SearchTree.OrderIndependent | master.c:513-521 | Inserting the same values in any order gives the same counts and the same printout. |
| Protocol.EncodeRequest | master.c:490-509 | Each order's frame is the tag, then the element for EXIST and INSERT, then for INSERT_MANY the count followed by that many values. |
| Protocol.DecodeRequest | master.c:602-640 | The master's reading of the client pipe. The count of INSERT_MANY is read as none when it is not positive. The result is Unknown exactly when the tag is none of the nine orders served, and Truncated exactly when the pipe is empty or the operand, the count or some counted value is missing. |
| Protocol.DecodeEncode | master.c:602-640 | Reading back a framed order gives that order and consumes exactly its frame. |
| Protocol.EncodeAnswer | client.c:371-460 | An answer is its acknowledgement, then two ints after HOW_MANY_OK, one int after MINIMUM_OK, MAXIMUM_OK, EXIST_YES and SUM_OK, and nothing else. |
| Channels.Pipe.Write | master_worker.c:20-24 | writeToWorker appends one int to the pipe. |
| Channels.Pipe.Read | master_worker.c:26-32 | readWorker removes and returns the oldest int. |
| Workers.Step | worker.c:598-642 | One order served by a subtree. Only INSERT changes the tree. The loop ends exactly on STOP and aborts exactly on an unknown tag, and an aborted order emits nothing. |
| Workers.Run | worker.c:598-642 | The worker's loop over whole orders: one order per iteration, until STOP, an unknown order, or an empty pipe. |
| Workers.ResumePrefix | worker.c:598-642 | The loop that accumulates its outputs agrees with Run after the outputs already emitted. |
| Workers.InsertStep | worker.c:442-541 | INSERT sends one acknowledgement to the master, nothing to the parent, adds exactly one copy of v, and keeps order. It creates a node exactly when v was absent. |
| Workers.ExistStep | worker.c:285-366 | EXIST is answered once, to the master: YES with v's count when v is held, NO otherwise. The tree is unchanged. |
| Workers.ExtremaStep | worker.c:225-279 | MINIMUM (MAXIMUM) is answered once, to the master, with a held element no larger (no smaller) than any held element. |
| Workers.AggregateStep | worker.c:144-592 | HOW_MANY, SUM and PRINT answer the parent. HOW_MANY gives the total and the distinct count, SUM the weighted sum, and PRINT a strictly ascending printout of exactly the held elements with their counts. |
| Workers.HowManyAsWritten | worker.c:159-216 | howManyAction as written: both counts are equal, and zero only for an empty subtree. |
| Workers.HowManyAsWrittenCountsWorkers | worker.c:159-216 | As written, both counts returned are the number of workers. |
| Workers.HowManyAsWrittenUndercounts | worker.c:160 | Inserting 5, 3, 8, 3 holds four elements, but the total as written is 3. |
| Workers.RunInsertHead | worker.c:503-510 | An INSERT at the front of a child's pipe gives one acknowledgement; the rest then runs on the grown tree. |
| Workers.RunInserts | master.c:513-521 | A run of n INSERT orders builds the batch insertion, with n acknowledgements and nothing else emitted. |
| Workers.RunStops | worker.c:609-612 | After STOP nothing more is served: the run ends with the tree unchanged and nothing emitted. |
| Workers.Worker.constructor | worker.c:655-662 | A new worker holds its element once, has no children, and acknowledges the insertion to the master on start. |
| Workers.Worker.SubtreePositive | worker.c:22-45 | Every worker of a subtree holds its element at least once. |
| Workers.Worker.Serve | worker.c:602-637 | One iteration of the loop does exactly what Step says to the subtree, to the three pipes and to the console. A worker that has stopped has its whole subtree stopped. |
| Workers.Worker.StopAction | worker.c:105-138 | Every worker of the subtree is stopped (AllStopped) before this worker ends: each child has itself waited for its own children. The tree, the pipes and the console are untouched. |
| Workers.Worker.StopRight | worker.c:130-137 | With the left subtree already stopped, the right child's whole subtree is stopped too, so the whole subtree is. |
| Workers.Worker.HowManyAction | worker.c:144-219 | The parent receives the acknowledgement, then the subtree's total and distinct counts. Nothing else changes. |
| Workers.Worker.HowManyRight | worker.c:192-216 | The right child's counts are added, then the acknowledgement and the counts go to the parent. |
| Workers.Worker.MinimumAction | worker.c:225-252 | The master receives the acknowledgement and the subtree's minimum. Nothing else changes. |
| Workers.Worker.MaximumAction | worker.c:258-279 | The master receives the acknowledgement and the subtree's maximum. Nothing else changes. |
| Workers.Worker.ExistAction | worker.c:285-366 | The element is read from the parent. The master receives YES and the count, or NO, as the descent finds. Nothing else changes. |
| Workers.Worker.ExistLeft | worker.c:329-346 | A smaller element gets NO without a left child, else the left child's answer. |
| Workers.Worker.ExistRight | worker.c:348-365 | A larger element gets NO without a right child, else the right child's answer. |
| Workers.Worker.SumAction | worker.c:372-436 | The parent receives the acknowledgement, then the sum of element times cardinality over the subtree. |
| Workers.Worker.SumRight | worker.c:414-434 | The right child's sum is added, then the acknowledgement and the sum go to the parent. |
| Workers.Worker.InsertAction | worker.c:442-541 | The element is read from the parent. The subtree becomes its insertion, and the master receives exactly one acknowledgement. |
| Workers.Worker.InsertLeft | worker.c:503-510 | A smaller element goes to the existing left child, which inserts it. |
| Workers.Worker.AddLeft | worker.c:486-502 | A smaller element with no left child becomes a new left worker holding it once. The new worker sends the acknowledgement. |
| Workers.Worker.InsertRight | worker.c:532-539 | A larger element goes to the existing right child. |
| Workers.Worker.AddRight | worker.c:515-531 | A larger element with no right child becomes a new right worker holding it once. |
| Workers.Worker.PrintAction | worker.c:547-592 | The console gains the subtree's listing, and the parent one PRINT acknowledgement. |
| Workers.Worker.PrintRight | worker.c:577-591 | The console gains this worker's line, then the right subtree's listing. |
| Workers.Worker.Loop | worker.c:598-642 | The loop does what Run says. It ends only on STOP, an unknown order, or an empty pipe. When it ends on STOP, the whole subtree has stopped. |
| Workers.Forward | worker.c:503-510 | An order written to a child's pipe is served by the child as Step says. After STOP the child's whole subtree has stopped. |
| Workers.AskHowMany | worker.c:174-190 | A child asked HOW_MANY returns its subtree's total and distinct counts and is otherwise unchanged. |
| Workers.AskInsert | worker.c:503-510 | A child asked to INSERT v grows by v and sends one acknowledgement to the master. |
| Workers.AskSum | worker.c:397-411 | A child asked SUM returns its subtree's weighted sum. |
| Workers.AskPrint | worker.c:566-574 | A child asked PRINT prints its subtree's listing, and its acknowledgement is read back. |
| Workers.Spawn | worker.c:486-502 | A new child holds v once, has empty pipes to its parent, and acknowledges the insertion. |
| Masters.ExistReply | master.c:347-372 | The worker's NO becomes EXIST_NO with no payload. YES becomes EXIST_YES with the count. |
| Masters.Respond | master.c:87-575 | Every answer has a frame. Only INSERT and INSERT_MANY change the set, and only PRINT prints. |
| Masters.EmptyIffNothingHeld | master.c:101-104 | The set has no first worker exactly when no element is held. |
| Masters.RespondUpdates | master.c:430-531 | Every order keeps the set ordered, and the set gains exactly the values the order inserts. |
| Masters.RespondEmpty | master.c:147-162 | On an empty set the answers are STOP_OK, (0, 0), SUM 0, the EMPTY codes, EXIST_NO and PRINT_OK with nothing printed. |
| Masters.RespondAggregates | master.c:130-190 | HOW_MANY answers the total and distinct counts of the printout. SUM answers its weighted sum. |
| Masters.RespondExtremes | master.c:196-293 | MINIMUM (MAXIMUM) is EMPTY exactly when nothing is held. Otherwise it is a held element that is least (greatest). |
| Masters.RespondExist | master.c:299-374 | EXIST answers YES with v's count exactly when v is held, and NO exactly when it is not. |
| Masters.RespondPrint | master.c:537-575 | PRINT answers PRINT_OK after a strictly ascending printout of exactly the held elements with their counts. |
| Masters.Turn | master.c:602-640 | One iteration consumes at least one int. It aborts exactly on an unknown tag, with no other effect, and ends exactly on STOP. |
| Masters.TurnInsertMany | master.c:490-531 | INSERT_MANY reads its count and that many values. The set gains them in order, and the client gets one INSERT_OK. |
| Masters.TurnPlain | master.c:602-640 | An order without operands consumes only its tag. |
| Masters.TurnOperand | master.c:299-484 | EXIST and INSERT consume the tag and one element. |
| Masters.Session | master.c:581-658 | The replies of a session extend the replies already sent. |
| Masters.Replay | master.c:581-658 | A session of known orders never aborts, and it ends exactly when it contains STOP. |
| Masters.SessionFrames | master.c:602-640 | A pipe holding the frames of some orders is well framed, and the loop on it is the loop on those orders. |
| Masters.StopEndsReplay | master.c:609-612 | Nothing after STOP is served. |
| Masters.ReplayCounts | master.c:581-658 | After a session the set holds what it held plus every value inserted before STOP, and it is still ordered. |
| Masters.Master.constructor | master.c:65-81 | init: three empty pipes with the workers, and no first worker. |
| Masters.Master.OrderStop | master.c:87-124 | The first worker, if any, is stopped with all its descendants (AllStopped). The client gets STOP_OK, as Turn says. |
| Masters.Master.OrderHowMany | master.c:130-190 | (0, 0) on an empty set, else the first worker's counts read from its own pipe, as Turn says. |
| Masters.Master.OrderMinimum | master.c:196-248 | MINIMUM_EMPTY on an empty set, else the value read from the shared pipe, as Turn says. |
| Masters.Master.OrderMaximum | master.c:254-293 | MAXIMUM_EMPTY on an empty set, else the value read from the shared pipe, as Turn says. |
| Masters.Master.OrderExist | master.c:299-374 | The element is read from the client. EXIST_NO on an empty set, else the relayed verdict, as Turn says. |
| Masters.Master.OrderSum | master.c:379-422 | SUM_OK 0 on an empty set, else the first worker's sum, as Turn says. |
| Masters.Master.InsertOne | master.c:453-478 | The first worker is created on an empty set, else INSERT goes to it. The set becomes the insertion, and the first worker, once there, is never replaced. |
| Masters.Master.OrderInsert | master.c:430-484 | The element is read, inserted, and the client gets INSERT_OK, as Turn says. |
| Masters.Master.InsertBatch | master.c:513-521 | The batch's values are inserted one after the other, in order. |
| Masters.Master.OrderInsertMany | master.c:490-531 | The count and the values are read, all are inserted, and the client gets one INSERT_OK, as Turn says. |
| Masters.Master.OrderPrint | master.c:537-575 | The workers print the set in order, then the client gets PRINT_OK, as Turn says. |
| Masters.Master.Serve | master.c:602-640 | One loop iteration does exactly what Turn says to the set, the client pipes and the console. When it ends on STOP, every worker has stopped. |
| Masters.Master.Loop | master.c:581-658 | The loop does exactly what Session says. If it has not ended, every order written has been served. When it ends on STOP, every worker has stopped. |
| Masters.ReadBatch | master.c:504-510 | The count is read, then that many values. A count that is not positive is read as none. |
| Masters.AskMinimum | master.c:227-235 | MINIMUM to the first worker: the answer on the shared pipe is the set's minimum. |
| Masters.AskMaximum | master.c:272-280 | MAXIMUM to the first worker: the answer on the shared pipe is the set's maximum. |
| Masters.AskExist | master.c:338-361 | EXIST to the first worker: the verdict and the count on the shared pipe are the descent's. |
| Client.OrderOf | client.c:113-134 | Each of the ten command words names its own order. Any other word names none. |
| Client.LeadingDigits | client.c:164-189 | strtol's digit run: the longest prefix of digits. |
| Client.DigitsOf | client.c:164-189 | A number's decimal digits, none missing. |
| Client.IntToStr | client.c:164-189 | A number as a user types it: no leading space and no plus sign. |
| Client.DigitsRoundTrip | client.c:164-189 | The value of a number's decimal digits is the number. |
| Client.AllDigits | client.c:164-189 | A run of digits is read whole. |
| Client.StrToIntSpace | client.c:161-183 | strtol skips leading white space. |
| Client.StrToIntSign | client.c:161-183 | strtol takes a sign before the digits and stops at the first non-digit. |
| Client.StrToIntDigits | client.c:161-183 | A word of digits followed by anything that is not a digit reads as the digits' value. |
| Client.StrToIntReads | client.c:161-183 | What strtol reads from a word: " 5", "+5", "05" and "5x" all read as 5, and "-5" as -5. |
| Client.IntRoundTrip | client.c:164-189 | strtol reads back every integer written in decimal. |
| Client.ParseArgs | client.c:105-191 | No command, an unknown word, and a wrong number of words each fail exactly when they occur. Orders without operands are then accepted. exist and insert carry the value read from their operand. insertmany fails on nb < 1, then on max < min, and is accepted otherwise with the three values read. local fails on nbThreads < 1, then nb < 1, then max <= min, and is accepted otherwise with the five values read. |
| Client.RenderArity | client.c:137-156 | The word count demanded for each order (Arity) is the length of that order's own command line. |
| Client.Render | client.c:105-191 | The command line of a command starts with the program name and its word. |
| Client.TokenNamesOrder | client.c:30-39 | Each order's command word names that order. |
| Client.ParseRender | client.c:105-191 | Every command that passes the checks is parsed back from its own command line. |
| Client.RequestOf | client.c:319-358 | The order a remote command sends. For insertmany it carries the values drawn. |
| Client.FrameAsWritten | client.c:330-357 | sendData as written: the tag first, and for insertmany nb, min and max. |
| Client.FrameAsWrittenMisread | client.c:346-353 | With the check at master.c:510 corrected and min and max taken as whole numbers: insertmany with nb = 3 makes the read of the values come back short, and with nb = 2 the master takes min and max themselves as the two values. |
| Client.SendData | client.c:319-358 | The client pipe gains exactly the frame of the order, with the count and the values for insertmany. |
| Client.SendBatch | client.c:346-353 | The client pipe gains the insertmany frame: the tag, the count and each value in turn. |
| Client.ReceiveAnswer | client.c:361-461 | The client reads one whole answer frame, or finds the pipe short exactly when the payload is missing. |
| Client.ReceiveEncode | client.c:361-461 | The client reads back exactly the answer the master framed, and no more. |
| Client.Occurrences | client.c:295-300 | The number of entries equal to elt is at most the length. |
| Client.OccurrencesMultiplicity | client.c:295-300 | The linear count is the multiplicity of elt. |
| Client.OccurrencesSplit | client.c:226-237 | The counts of two adjacent ranges add up to the count of their union. |
| Client.ThreadShare | client.c:226-237 | A thread's count added to the counts before its range gives the count up to its range's end. |
| Client.ThreadFunction | client.c:220-240 | The shared counter grows by the number of entries equal to elt in the thread's range. |
| Client.Portion | client.c:257-265 | A thread's share is nb / nbThreads or one more, so the shares differ by at most one. |
| Client.Start | client.c:257-265 | The i-th range starts at no less than i * (nb / nbThreads), and no range starts past nb. |
| Client.StartStep | client.c:257-273 | Each range ends where the next starts, and the last one ends at nb. |
| Client.LaunchThreads | client.c:243-312 | The ranges are contiguous, start at 0, end at nb, and have the sizes nb / nbThreads plus one for the first nb % nbThreads. The threads' total and the linear count both equal the occurrences of elt. |

## Left out

- Processes and their plumbing are not modelled: `fork`, `execv`, `pipe`, `waitpid`, `mkfifo`, `open`, `close`, `unlink`, `sleep`, the `TRACE` macros and `printf`. A printed line is an (element, cardinality) pair on a console.
- `client_master.c` (the semaphores of a session) is not part of this model. One session at a time is taken as given.
- `createWorker`'s argv building in `master_worker.c` is not modelled. A new worker is a new object.
- `client.c`'s `main` is not modelled: the choice between `local`, sending, and receiving, the opening of the named pipes, and the printing of answers.
- `receiveAnswer` blocks when the payload is missing. `ReceiveAnswer` reports this as Short instead.
- Threads and the mutex are not modelled. `LaunchThreads` runs the threads one after the other. Addition does not depend on their order.
- The random array of `local` is a parameter (`tab`). So are the values the client draws for insertmany (`values`).
- The array printout of `lauchThreads` is not modelled. Nor are its final comparison and message; `LaunchThreads` instead proves that both counts are equal.
- Floats are not modelled. Elements, min and max are whole numbers in the model. The source parses them with `strtof` into `float` fields (client.c:55-65), and the worker pipes and the master carry `int`.
- The model does not capture 32-bit `int` overflow or `strtol`'s clamping. `StrToInt` reads an unbounded integer.
- `Masters.ReadBatch` reads a negative INSERT_MANY count as an empty batch. In the source, `malloc` and `read` receive a negative size there.
- `Masters.Master.Loop` returns when the client pipe is empty. The source process blocks in `read` until the next order. The named pipes are reopened each iteration, which the model does not show.
- `Masters.Master.Serve` requires whole orders in the client pipe, because the client writes each order whole. `Workers.Worker.Serve` has the same requirement for the worker's input pipe.
- The master's set is `Contents()`, the first worker's subtree, or the empty tree when there is no first worker. This stands for `firstWorkerPid == -1`.
- The model does not reproduce where the wiring contradicts the comments of the code; it follows the comments:
  - swapped (fd, message) arguments at worker.c:177, 196, 212, 215-216, 242-243, 269-270;
  - wrong pipe ends at worker.c:196, 400, 417, 506, 509, 535, 538;
  - wrong answer routes at worker.c:166-170, 393, 431, 481, 591;
  - `Client.SendData` sends the integer value, while sendData writes the `float` fields elt, min and max (client.c:337, 342, 349, 351) and the master reads them as `int` (master.c:324, 450, 509), so `insert 5` as written stores the bit pattern of 5.0f (1084227584);
  - wrong assertions at worker.c:573, 587 and master.c:345, and the inverted check at master.c:510;
  - `cardinality` is never set by `parseArgs` (worker.c:62-99); a new worker starts at 1;
  - `orderPrint` never answers the client on an empty set (master.c:553-558); the model answers PRINT_OK with nothing printed;
  - `orderInsertMany` skips the empty-set case and the per-insert acknowledgement (master.c:513-521). The model inserts through the same path as INSERT.

## Findings

| source | as written | input that shows it | evidently intended | confidence | as-written member | corrected member |
|---|---|---|---|---|---|---|
| worker.c:160 | `nbElements` starts at 1 in every worker. So the total of HOW_MANY counts workers, not elements. | insert 5, 3, 8, 3, then howmany: total 3 | the total starts at the worker's cardinality (comment at worker.c:156) | not executed | Workers.HowManyAsWrittenUndercounts | Workers.Worker.HowManyAction |
| client.c:346-353 | insertmany sends nb, min and max, but the master reads a count and then that many values (master.c:505-509). | with the check at master.c:510 corrected (as written it aborts) and the values taken as whole numbers: insertmany 3 5 9 makes the read of the values come back short; insertmany 2 5 9 makes the master take 5 and 9 as the two values | the client sends the count, then the nb values it drew in [min, max[ | not executed | Client.FrameAsWrittenMisread | Client.SendData |
