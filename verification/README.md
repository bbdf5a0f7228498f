# Verified models of WPDK's own algorithms

WPDK lets POSIX programs run on Windows. Most of it hands a call on to Win32 or to the C run-time, but
some of its files hold algorithms and protocols of their own. This project models those in Dafny and
proves what they promise, for every input, every run and every interleaving. Calls into Windows and the
C run-time are parameters: whatever they may answer is covered.

| file | models |
|---|---|
| `Permute.dfy`, `Getopt.dfy` | `src/getopt.c`: the in-place exchange of two blocks of arguments by gcd cycles, and the resumable scanner around it |
| `Fnmatch.dfy` | `src/fnmatch.c`: matching with star shortcuts and recursion, against the language of the pattern |
| `TailQueue.dfy` | `inc/sys/queue.h`: the intrusive `TAILQ` queues, with back links that are addresses of pointers |
| `AioRequest.dfy`, `AioReads.dfy`, `AioSubmit.dfy`, `AioRing.dfy` | `src/aio.c`: one scatter/gather request, its last read of the reference count, one `io_submit` call, and the ring of completions |
| `Threads.dfy` | `src/pthread.c`: thread records shared by creator, thread, joiners and detachers |
| `Sockets.dfy` | `src/socket.c`: the table of descriptors claimed and released by compare-exchange, and its start-up |
| `Epoll.dfy` | `src/epoll.c`: the registration table and the readiness scan |
| `PathMap.dfy` | `src/fcntl.c`: the table of path mappings and the translation of a path |
| `LockRange.dfy` | `src/fcntl.c`: the ranges of advisory locks in 64-bit arithmetic |
| `GetDelim.dfy` | `src/stdio.c`: reading a stream piece by piece |
| `Uuid.dfy` | `src/uuid.c`: the byte codec, the order and the text form of UUIDs |
| `Bytes.dfy` | the type of a byte |
| `Options.dfy` | optional values, and the first free slot of a table |
| `Arithmetic.dfy` | facts about products and remainders that the cycles of `Permute.dfy` need |

Code that updates state in place (the argument vector, the queues, the ring, the epoll and path tables,
the line buffer) is a class or a method over arrays, proved against a function of the old contents.
Code that several threads run at once is a state machine: every section under a lock, every read or
compare-exchange of shared memory and every completion is one step, a run is any sequence of enabled
steps, and what is proved holds in every reachable state.

`dafny verify dfyconfig.toml` checks the whole project.

## What the code does where it differs from what one expects

Each of these is a statement of the model, with the exact condition where there is one.

- `getopt` permutes only if `POSIXLY_CORRECT` is set (line 270 is the opposite of the comment above it).
  The model follows the code, and the results are stated for permutation on or off.
- A cluster of short options that ends in a dash can stop a `getopt` run without consuming the cluster.
  No run of a configuration does so if and only if it has long options or `-` among its letters
  (`Getopt.StuckIff`).
- A long option whose value is -1, the scanner's own code for no match and for the end, is taken for none
  after it has been consumed. All results hold up to that point. Some run gets there if and only if some
  name selects such an option, for options whose names are not empty and do not start with `=`
  (`Getopt.MisreadIff`), and none does if no option has that value (`Getopt.NeverMisread`).
- `fnmatch` forgets `FNM_PERIOD` behind a star that it handles by recursion. The rule is kept on all
  strings if and only if `FNM_PATHNAME` is off, or no path component behind such a star starts with a
  wildcard, or the pattern matches nothing (`Fnmatch.PeriodRuleIff`).
- Under `FNM_PREFIX_DIRS` a nonempty string that ends before a slash of the pattern passes, except directly
  behind a star, and the string `/`, or one whose final `/` began a recursive call, passes before any
  literal (`Fnmatch.PrefixIff`).
- A party that drops a reference on a scatter/gather request without dropping the last reads the count
  once more, and by then the request may have been freed. Some run does so if and only if a segment that
  is started is left to complete on its own (`AioReads.StaleIff`).
- The completion ring looks empty when as many completions as it has cells are unreaped. It refines a
  queue if and only if that never happens (`AioRing.RingRefinesQueue`).
- A thread stays suspended for ever exactly if its handle was closed when it was about to be resumed, and
  its record is then not freed (`Threads.NeverStarted`). A detach can bring that about for every thread
  that is published and not yet resumed (`Threads.LeftSuspended`), but not if callers use ids only of
  threads that have been resumed (`Threads.ReleasedPolitely`).
- `pthread_detach` does not refuse the id 0, which every record has while it is being created. It can take
  any such record, and then its creator writes to freed memory or in front of the table
  (`Threads.DetachZero`), or leaves a thread that cannot be joined (`Threads.DetachZeroLoses`). All other
  results are for calls with other ids.
- `epoll_wait` moves its starting point on and never back: it is the number of calls that could not report
  all that `select` counted (`Epoll.StartCounts`), and so leaves the table once there are more of them
  than slots (`Epoll.StartEscapes`). From there the scan reads past its arrays exactly if there is room
  for more events and some socket was both readable and in error (`Epoll.Table.Wait`), which some run on
  every table brings about (`Epoll.LeavesRun`).
- A path mapping for a directory with `//` in it, or for `/`, is entered but can never be used
  (`PathMap.UsedIffNormal`). It is entered every time it is asked for, and then keeps the directory as it
  is kept from being mapped (`PathMap.RefusedIff`). The table has a duplicate if and only if two
  directories that were entered are kept alike (`PathMap.RequestsDistinct`).
- A translation looks past the end of a path if and only if the table is searched for it, after a file in
  the root has been remapped, and it is what is kept of a directory that was entered and not normal
  (`PathMap.RequestsOverrun`); for example `/a/b` after `/a//b` (`PathMap.OverrunExample`).
- For a file in the root whose remapped path is shorter than `MAX_PATH` and concerns no mapping,
  `wpdk_get_path` returns a pointer to a buffer of a function that has returned
  (`PathMap.RequestsLocalBuffer`).
- The check of a lock range lets some ranges past the limit through (`LockRange.Misfits`). It is exact
  if and only if the position is within the limit and neither argument is the least 64-bit number
  (`LockRange.FitsIffSane`). A guarded call with an unknown operation keeps the guard
  (`LockRange.GuardBalanced`).
- `getdelim` with the delimiter 0 reads nothing, and writes its terminator through a missing or empty
  buffer. Its doubled size wraps around only if a piece has at least 2^63 - 2 bytes (`GetDelim.Getdelim`).

## Model

| member | source | states |
|---|---|---|
| `Permute.GcdFacts` | src/getopt.c:72-85 | the gcd is a common divisor of its arguments and an integer combination of them |
| `Permute.GcdGreatest` | src/getopt.c:72-85 | every common divisor divides it, so it is the greatest |
| `Permute.ComputeGcd` | src/getopt.c:72-85 | the loop of remainders computes that gcd for every nonzero second argument |
| `Permute.OrbitReturns` | src/getopt.c:107-121 | after the computed cycle length the cursor is back at the start of its cycle |
| `Permute.OrbitInjective` | src/getopt.c:107-121 | within a cycle no cell is visited twice |
| `Permute.OrbitResidue` | src/getopt.c:107-121 | a cycle never leaves its residue class modulo the gcd |
| `Permute.OrbitSurjective` | src/getopt.c:107-121 | a cycle visits every cell of its residue class |
| `Permute.CycleStructure` | src/getopt.c:102-121 | the cycles started in the second block are exactly the residue classes modulo the gcd, all of the computed length |
| `Permute.CycleShape` | src/getopt.c:102-105 | the number and length of the cycles as computed are those of that structure |
| `Permute.CycleStep` | src/getopt.c:110-119 | one swap puts one more cell of the cycle in its final place and carries the rest on in the start cell |
| `Permute.CycleComplete` | src/getopt.c:110-120 | a completed cycle has put exactly the cells of its residue in place and touched no other |
| `Permute.SwapNext` | src/getopt.c:111-119 | one pass of the inner loop moves the cursor to the next cell of the cycle and swaps it with the start |
| `Permute.FollowCycle` | src/getopt.c:110-120 | the inner loop does that on the array, through the window of the two blocks only |
| `Permute.PermuteCycle` | src/getopt.c:107-121 | one pass of the outer loop finishes one more residue class |
| `Permute.PermuteArgs` | src/getopt.c:92-122 | for all start < end < opt_end the array is rearranged in place so that the two blocks are exchanged, each in its old order, and nothing else has moved |
| `Getopt.FindLong` | src/getopt.c:150-180 | the matching loop finds the first exact match unless two abbreviations precede it, else a single abbreviation, else nothing |
| `Getopt.SelectLong` | src/getopt.c:150-180 | what is selected is an option that the name abbreviates |
| `Getopt.LongStep` | src/getopt.c:129-243 | reading a long option consumes it and its argument, stays within the vector, and never reports the code that ends a run; it is misread only if some option has that code as its value |
| `Getopt.ShortStep` | src/getopt.c:383-440 | reading a short option drops one letter of the cluster or moves on to another argument, within the vector |
| `Getopt.OptionStepLocal` | src/getopt.c:367-440 | how an option is read depends only on the arguments from it on, so permuting what lies before changes nothing |
| `Getopt.ParseMerges` | src/getopt.c:285-359 | the arguments a run has read are an order-preserving merge of those consumed as options or their arguments and those skipped, and only non-options are skipped |
| `Getopt.ArrangedPermute` | src/getopt.c:325-334 | permute_args turns the arrangement kept in mid-run into one with the skipped block last |
| `Getopt.ArrangedSkip` | src/getopt.c:325-336 | a skipped argument extends the block of non-options |
| `Getopt.ArrangedMark` | src/getopt.c:338-339 | an option closes the block |
| `Getopt.ArrangedConsume` | src/getopt.c:361-440 | consumed arguments follow the options found after the block |
| `Getopt.Scanner.constructor` | src/getopt.c:29-59 | a new scanner stands at the first argument with the whole run before it |
| `Getopt.Scanner.SkipNonOption` | src/getopt.c:325-336 | a non-option joins the block, moved up behind the options found since, and the rest of the run is unchanged |
| `Getopt.Scanner.MarkEnd` | src/getopt.c:338-339 | marking the end of the block keeps the arrangement |
| `Getopt.Scanner.Finish` | src/getopt.c:289-303 | at the end the skipped block is last and optind is its first argument; permute_args is never called with an empty block |
| `Getopt.Scanner.Terminate` | src/getopt.c:344-357 | `--` is consumed, and what was skipped is put behind it |
| `Getopt.Scanner.StartOption` | src/getopt.c:338-358 | an option is entered with the predicted rest unchanged, or the run is finished |
| `Getopt.Scanner.NextArgument` | src/getopt.c:285-359 | skipping ends at an option, at an argument reported in order, or at the predicted end |
| `Getopt.Scanner.ReadOption` | src/getopt.c:361-440 | reading one option reports the next predicted event and leaves the prediction of the rest, or misreads the option where that is predicted |
| `Getopt.Scanner.BeginCall` | src/getopt.c:258-284 | a call with optind 0 starts a new run at the first argument |
| `Getopt.Scanner.Getopt` | src/getopt.c:249-441 | one call reports the next event of the run, and -1 exactly when none is left, with the vector and optind in their final state; it misreads an option exactly where that is predicted |
| `Getopt.ParseAll` | src/getopt.c:249-441 | calling until -1 terminates, reports exactly the events of one pass over the original vector, and leaves the final arrangement, for every configuration, unless the pass ends in a misread option |
| `Getopt.FinalArguments` | src/getopt.c:249-441 | the final vector is a permutation of the original: the program name, the consumed arguments in order, and from optind on the skipped ones in order followed by what was never read |
| `Getopt.NeverStuck` | src/getopt.c:383-395 | with long options, or with `-` as a letter, no run stops inside a cluster, from any place in the vector |
| `Getopt.StuckExample` | src/getopt.c:393-394 | for every other configuration `-:-` stops a run inside the cluster, after reporting the colon as unknown |
| `Getopt.StuckIff` | src/getopt.c:383-395 | no run of a configuration stops inside a cluster if and only if it has long options or `-` among its letters |
| `Getopt.NeverMisread` | src/getopt.c:374-381 | no run misreads an option, from any place in the vector, if none without a flag has the value -1, or no name selects one that has |
| `Getopt.MisreadLong` | src/getopt.c:374-381 | every name that selects one is misread when it is given after two dashes |
| `Getopt.MisreadShort` | src/getopt.c:366-381 | for getopt_long_only also after one dash, where single letters do not abbreviate |
| `Getopt.MisreadIff` | src/getopt.c:366-381 | some run misreads an option if and only if some name selects such an option, where all names can be spelled out |
| `Fnmatch.Match` | src/fnmatch.c:29-124 | without FNM_PERIOD and FNM_PREFIX_DIRS the answer is 0 if and only if the string is in the language of the pattern, for every combination of the other flags; with FNM_PERIOD if and only if it matches with the rule kept throughout, for every pattern that does not lose the rule; with FNM_PREFIX_DIRS if and only if it matches or is a directory prefix in the code's sense |
| `Fnmatch.Fnmatch` | src/fnmatch.c:29-124 | from any position of pattern and string the loop and its recursion terminate and answer 0 exactly if the rest of the string follows the rest of the pattern, under all flags |
| `Fnmatch.MatchOne` | src/fnmatch.c:41-121 | `?`, brackets, escapes and literals consume one token and one character, or decide, including the exit for directory prefixes |
| `Fnmatch.MatchStar` | src/fnmatch.c:51-87 | the three treatments of a star agree with its meaning |
| `Fnmatch.SkipStars` | src/fnmatch.c:51-55 | collapsing a run of stars keeps what is matched |
| `Fnmatch.SearchStar` | src/fnmatch.c:77-87 | trying every place a star may reach except the very end misses no match |
| `Fnmatch.RangeMatch` | src/fnmatch.c:126-173 | returns the place after the bracket exactly if it is closed and its items contain the character, or not, when negated |
| `Fnmatch.MatchesIsLanguage` | src/fnmatch.c:29-124 | matching position by position is membership in the language of the tokens |
| `Fnmatch.CollapseStars` | src/fnmatch.c:53-55 | a star before a star adds nothing |
| `Fnmatch.StarAtEnd` | src/fnmatch.c:62-69 | a final star matches the rest exactly if separators are not significant, or there is none, or FNM_LEADING_DIR is set |
| `Fnmatch.StarBeforeSeparator` | src/fnmatch.c:70-75 | a star before a separator runs exactly to the next separator |
| `Fnmatch.NeedsCharacter` | src/fnmatch.c:77-87 | what follows a run of stars cannot match the empty rest, which is why it is not tried |
| `Fnmatch.PeriodRuleDropped` | src/fnmatch.c:78-80 | `*a/?b` matches `a/.b` under FNM_PATHNAME and FNM_PERIOD, and would not with the rule kept |
| `Fnmatch.KeptAlike` | src/fnmatch.c:45-80 | a pattern in which no component behind a recursive star starts with a wildcard is matched with the rule kept throughout, on all strings |
| `Fnmatch.LostExample` | src/fnmatch.c:78-80 | every other pattern that matches anything matches a string that the rule forbids |
| `Fnmatch.Rigid` | src/fnmatch.c:45-60 | slashes of string and pattern correspond one to one, so a wildcard at the start of a component never gets past a period there, if the rule is kept |
| `Fnmatch.PeriodRuleIff` | src/fnmatch.c:29-124 | the exact condition on the pattern under which FNM_PERIOD is honoured on all strings |
| `Fnmatch.FollowsPlain` | src/fnmatch.c:29-124 | without FNM_PREFIX_DIRS it makes no difference where a recursive call starts |
| `Fnmatch.PrefixIff` | src/fnmatch.c:114-117 | with FNM_PREFIX_DIRS exactly these strings pass: those that match, and those that match all of the pattern before a literal that is not directly behind a star, if the literal is a slash and the string not empty, or the call has read a single slash: the whole string if no star recursed before, else the last character if the one token between the star that recursed and the literal took it |
| `TailQueue.Head.DescribesOne` | inc/sys/queue.h:618-640 | the links of a well-formed queue determine its sequence |
| `TailQueue.Head.Init` | inc/sys/queue.h:760-764 | the queue is empty and well formed |
| `TailQueue.Head.InsertHead` | inc/sys/queue.h:791-802 | the sequence gains the element at the front, and stays well formed |
| `TailQueue.Head.InsertTail` | inc/sys/queue.h:804-812 | the sequence gains the element at the end |
| `TailQueue.Head.InsertAfter` | inc/sys/queue.h:766-779 | the sequence gains the element after the given one |
| `TailQueue.Head.InsertBefore` | inc/sys/queue.h:781-789 | the sequence gains the element before the given one, through the back link alone, also at the head |
| `TailQueue.Head.Remove` | inc/sys/queue.h:836-852 | the sequence loses exactly that element |
| `TailQueue.Head.Concat` | inc/sys/queue.h:705-714 | the first queue holds both sequences in order, the second is empty and well formed |
| `TailQueue.Head.Swap` | inc/sys/queue.h:854-869 | the two sequences are exchanged, also when either is empty |
| `TailQueue.Head.Last` | inc/sys/queue.h:814-815 | the cast yields the last element, or NULL if there is none |
| `TailQueue.Head.LastFast` | inc/sys/queue.h:824-825 | so does the form without the second access |
| `TailQueue.Head.Prev` | inc/sys/queue.h:829-830 | the cast yields the element before, and NULL at the first |
| `TailQueue.Head.PrevFast` | inc/sys/queue.h:832-834 | so does the form without the second access |
| `TailQueue.Head.Foreach` | inc/sys/queue.h:720-723 | the walk visits exactly the sequence, in order |
| `TailQueue.Head.ForeachReverse` | inc/sys/queue.h:740-743 | the walk by LAST and PREV visits exactly the reversed sequence |
| `AioRequest.ComputeFold` | src/aio.c:204-222 | the loop over the segment results computes their fold up to the first short or failed one |
| `AioRequest.FoldIsTotal` | src/aio.c:198-223 | folding the stored results gives the total that the environment's answers alone determine |
| `AioRequest.LastReference` | src/aio.c:198-228 | when the last reference is dropped every started segment has settled |
| `AioRequest.StepInv` | src/aio.c:198-264 | every step of the submitter and every completion keeps the invariant of the reference count and of the segments |
| `AioRequest.RunSafe` | src/aio.c:135-264 | in every interleaving active is pending plus unstarted segments plus the submitter's reference; the request is finished and freed at most once and never while a segment is pending; started segments lie one after another in the file from aio_offset; what is posted is independent of the order of completion |
| `AioRequest.NoDeadlock` | src/aio.c:327-410 | as long as a request is not quiet some step is possible |
| `AioRequest.StepRank` | src/aio.c:327-410 | every step lowers a rank, so every run ends |
| `AioRequest.QuietOutcome` | src/aio.c:247-264 | a quiet request was freed exactly once, and posted exactly once with the specified total if it was accepted or interrupted, not at all if it was rejected, which happens exactly on a failed segment |
| `AioReads.NextInv` | src/aio.c:226 | the reads of the count change nothing in the request, so that all of this holds with them as well |
| `AioReads.NeverStale` | src/aio.c:198-228 | if no started segment is left to complete on its own, no run reads a freed request |
| `AioReads.RunToReturn` | src/aio.c:327-410 | otherwise the submitter can return with a read still to do |
| `AioReads.CompleteAll` | src/aio.c:198-244 | and the completions then free the request before it is done |
| `AioReads.StaleIff` | src/aio.c:198-228 | some run reads a freed request if and only if a started segment is left to complete on its own |
| `AioSubmit.CounterExact` | src/aio.c:111-176 | under any interleaving of compare-exchange by this and other calls the counter is the number of live requests and never exceeds the size of the context |
| `AioSubmit.SubmittedExactly` | src/aio.c:441-563 | when all is quiet, exactly the first k iocbs of a call that returned k > 0 were reported, once each, including the interrupted one, and none if it returned an error |
| `AioSubmit.StopsAtFirstFailure` | src/aio.c:441-563 | a call counts every iocb up to the first that the environment makes fail, and that one only if it is an interrupted vector; it stops earlier only if in its last step it found the context full, or memory for the iocb was refused |
| `AioSubmit.AdvanceInv` | src/aio.c:441-563 | every step of the call keeps the invariant of its slots and of the counter |
| `AioSubmit.CompletionInv` | src/aio.c:179-244 | every completion keeps it |
| `AioRing.Ring.constructor` | src/aio.c:65-90 | a new context holds no events |
| `AioRing.Ring.Post` | src/aio.c:179-195 | the event is queued last, and the whole ring looks empty if that was its last cell |
| `AioRing.Ring.GetEvents` | src/aio.c:578-603 | returns the oldest nr events in order, or all there are, and keeps the rest |
| `AioRing.QueueConserves` | src/aio.c:578-603 | an unbounded queue delivers every completion once, in order |
| `AioRing.RingRefinesQueue` | src/aio.c:179-195 | over any run the ring behaves as that queue, and loses nothing, if and only if the unreaped completions always stayed below its size |
| `Threads.ScanFree` | src/pthread.c:138-145 | the scan finds the first free slot |
| `Threads.ScanId` | src/pthread.c:186-194 | the scan finds the first slot below the high-water mark with the id |
| `Threads.AllocateInv` | src/pthread.c:119-156 | allocation keeps the invariant, also when the table is full |
| `Threads.CreatorInv` | src/pthread.c:159-176 | every step of pthread_create after it does |
| `Threads.BodyInv` | src/pthread.c:200-212 | the start of the thread does, and frees the record only if it was detached before |
| `Threads.DoneInv` | src/pthread.c:215-233 | the end of the thread does, by remembered index or by search, after any reuse of slots |
| `Threads.JoinInv` | src/pthread.c:886-908 | the lookup and the wait of pthread_join do |
| `Threads.TakeInv` | src/pthread.c:236-260 | taking a record out of the table does |
| `Threads.ReleaseInv` | src/pthread.c:261-267 | closing the handle and freeing the record after the lock do |
| `Threads.StepInv` | src/pthread.c:119-267 | every step of any party stays inside the table and keeps the invariant, given that nothing is detached by the id 0 |
| `Threads.MemorySafe` | src/pthread.c:119-267 | over every interleaving no record is touched after it was freed or freed twice, and no handle is closed twice |
| `Threads.ReleasedExactlyOnce` | src/pthread.c:119-267 | when all parties are done, a record was freed exactly once if and only if its thread started and was created detached, joined or detached, and the handle closed exactly once if and only if it was created detached, joined or detached; a failed creation leaves nothing behind |
| `Threads.ReleasedPolitely` | src/pthread.c:844-915 | if calls name only threads that have been resumed, every created thread starts, and the record is freed and the handle closed, once each, exactly for threads created detached, joined or detached |
| `Threads.PoliteStep` | src/pthread.c:844-915 | every step of such a run keeps each resumed thread from being left suspended |
| `Threads.LeftSuspended` | src/pthread.c:159-176 | from every state with a joinable thread published and not yet resumed, a detach leads to one in which all parties are done and the thread is suspended with its record allocated |
| `Threads.DetachZero` | src/pthread.c:159-267 | from every state with a record that is not yet published, detaches of the id 0 lead to one in which pthread_create writes to it after it was freed, or in front of the table, unless its thread has begun and is not detached |
| `Threads.DetachZeroLoses` | src/pthread.c:159-267 | in that case they lead to one in which the thread has been created and is in no slot |
| `Threads.NeverStarted` | src/pthread.c:844-881 | after the creator's ResumeThread, in every continuation, the thread is suspended if and only if its handle was closed at that point, and then its record is never freed |
| `Threads.OneSuccess` | src/pthread.c:886-915 | of any number of joins and detaches of one thread at most one succeeds |
| `Threads.JoinDelivers` | src/pthread.c:886-908 | a successful join delivers the value its own thread returned or passed to pthread_exit, whatever happened to the slot |
| `Threads.FoundById` | src/pthread.c:179-197 | a joinable thread that nobody has claimed is found by its id |
| `Threads.CreateAlone` | src/pthread.c:844-881 | undisturbed, a creation with a record ends with the thread about to run and, unless created detached, joinable by its id; without a thread the record is freed |
| `Threads.DetachAlone` | src/pthread.c:911-915 | undisturbed, a detach of an unclaimed joinable thread succeeds, closes the handle, and frees the record exactly if the thread has started |
| `Threads.JoinAlone` | src/pthread.c:886-908 | undisturbed, a join of such a thread that has ended succeeds with its value and leaves neither record nor handle |
| `SocketTable.OpenerInv` | src/socket.c:86-110 | every step of the scan-then-exchange allocator keeps one owner for each open socket |
| `SocketTable.CloserInv` | src/socket.c:155-172 | so does every step of the read-then-exchange close |
| `SocketTable.DescriptorsDistinct` | src/socket.c:86-131 | in every interleaving two descriptors never name the same socket, and what a descriptor names is open and not about to be closed by anyone |
| `SocketTable.ClosedAtMostOnce` | src/socket.c:86-172 | closesocket is called only on open sockets, at most once for each time one was opened |
| `SocketTable.OneCloser` | src/socket.c:155-172 | of competing closes that read the same socket at most one goes on to close it |
| `SocketTable.NoLeak` | src/socket.c:86-172 | when no call is in progress the open sockets are exactly those with a descriptor |
| `SocketTable.DescriptorReturned` | src/socket.c:97-109 | the descriptor returned was free and names the socket opened; a refused socket has been closed |
| `SocketTable.AllocateAlone` | src/socket.c:86-110 | undisturbed, an allocation claims the first free slot, and closes the socket exactly if there is none |
| `SocketTable.CloseAlone` | src/socket.c:155-172 | undisturbed, a close frees the slot and closes the socket it held, and fails, changing nothing, exactly if it held none |
| `SocketStartup.OneTable` | src/socket.c:34-69 | any number of concurrent start-ups install exactly one table and free all others, and leave exactly one reference on Winsock if any of them succeeded, none otherwise |
| `SocketStartup.StepInv` | src/socket.c:34-69 | every step of a start-up keeps the count of references exact and frees nothing that is installed |
| `Epoll.Table.constructor` | src/epoll.c:79-86 | a new table has no registrations |
| `Epoll.Table.Ctl` | src/epoll.c:111-163 | the table behaves as a finite map: EBADF, EINVAL, EEXIST, ENOENT exactly as the map says, and ENOSPC exactly if it has as many entries as there are slots |
| `Epoll.Table.Insert` | src/epoll.c:125-144 | adding extends the map, or fails on a present socket or a full table |
| `Epoll.Table.Remove` | src/epoll.c:146-159 | deleting removes the socket from the map, or fails if it is absent |
| `Epoll.RepresentsDistinct` | src/epoll.c:111-163 | no two slots hold one socket, and no slot is free exactly if the map is full |
| `Epoll.Table.Interest` | src/epoll.c:190-202 | select is asked about exactly the sockets registered for each kind of event |
| `Epoll.Table.Collect` | src/epoll.c:211-221 | a scan loop reports the ready slots of its range in order, up to the limit |
| `Epoll.RotationComplete` | src/epoll.c:211-233 | the two loops together visit every ready socket once and no other slot |
| `Epoll.Table.Report` | src/epoll.c:211-235 | the events are the first of that rotation, as many as maxevents permits; the limit by the count of select never cuts them short; from a starting point beyond the table the exact condition under which the scan leaves the arrays |
| `Epoll.Table.Wait` | src/epoll.c:166-238 | all outcomes of epoll_wait from any starting point: the errors, nothing to do, and otherwise the events of that rotation and the new starting point, or that the scan leaves the arrays |
| `Epoll.Table.RunAll` | src/epoll.c:111-238 | after any run of epoll_ctl and epoll_wait on a new table the registrations are those of the map, and the starting point is the one computed from what select answered, up to the first call that leaves the arrays |
| `Epoll.MovesOnIff` | src/epoll.c:235-236 | the starting point moves on exactly if not all that select counted fits, or a socket was counted twice |
| `Epoll.StartCounts` | src/epoll.c:235-236 | after any run of calls it is the number of those that moved it on |
| `Epoll.StartEscapes` | src/epoll.c:235-236 | it is beyond a table exactly if more calls moved it on than there are slots, and for every size of table some calls do that |
| `Epoll.EscapesFromSixtyFour` | src/epoll.c:22-28 | sixty-five calls with two ready sockets and room for one take it beyond sixty-four slots |
| `Epoll.LeavesRun` | src/epoll.c:211-236 | for every size of table: one registered socket that is readable and in error at each of size + 2 calls, and the last call leaves the arrays |
| `Epoll.LeavesIff` | src/epoll.c:211-236 | some run on a new table leaves the arrays if and only if the table has any slot |
| `PathMap.StoredIff` | src/fcntl.c:79-83 | the directory kept is normal, and equals the one given, or has its length, exactly if that was normal |
| `PathMap.Squeeze` | src/fcntl.c:79-81 | the loop leaves one slash of every run of slashes |
| `PathMap.Store.Insert` | src/fcntl.c:85-95 | the entry goes before the first shorter one and after all others, and the rest keeps its order |
| `PathMap.Store.Add` | src/fcntl.c:38-95 | one call adds an entry exactly if there is room, the directory is new, and the destination can be built, accessed and copied |
| `PathMap.AddKeeps` | src/fcntl.c:38-95 | the table stays ordered by decreasing length, with no length below that of its directory; it stays free of duplicates and exact if and only if nothing was added or the directory was normal |
| `PathMap.AddDistinct` | src/fcntl.c:52-95 | a request makes a duplicate if and only if it is entered and its directory as kept was in the table |
| `PathMap.RequestsDistinct` | src/fcntl.c:52-95 | after any requests there is no duplicate if and only if no two directories that were entered are kept alike |
| `PathMap.RefusedIff` | src/fcntl.c:52-54 | while there is room a usable request is refused if and only if a directory that was entered is kept as the one it gives; one that is not normal never is |
| `PathMap.TwiceExample` | src/fcntl.c:52-95 | `/a//b` is entered twice, and keeps `/a/b` from being mapped |
| `PathMap.UsedIffNormal` | src/fcntl.c:232-255 | some path hits a mapping if and only if its directory was normal, and some call translates a path by it if and only if a path below the directory is also shorter than PATH_MAX |
| `PathMap.DecidesIff` | src/fcntl.c:247-250 | an entry hits exactly the paths below its directory if its length is that of the directory, and none otherwise, and makes the code look past the end of exactly the directory itself if its length is greater |
| `PathMap.OverrunIff` | src/fcntl.c:232-255 | a whole call looks past the end of the path if and only if it searches the table and an entry has the path it looks for as its directory, with a greater length; no earlier entry prevents it |
| `PathMap.RequestsOverrun` | src/fcntl.c:38-255 | after any requests it does so if and only if that path is what is kept of a directory that was entered and not normal |
| `PathMap.OverrunExample` | src/fcntl.c:247-248 | mapping `/a//b` and translating `/a/b` |
| `PathMap.Store.RemapRootFile` | src/fcntl.c:218-229 | a file in the root is translated under /tmp, by one further call that does not remap again |
| `PathMap.Store.GetPath` | src/fcntl.c:232-255 | all outcomes of a translation: the path itself, the caller's buffer, a pointer to the local buffer of wpdk_remap_root_file, NULL when something is too long, or a look past the end of the path |
| `PathMap.LocalBufferIff` | src/fcntl.c:218-229 | the pointer is to that local buffer, which is gone, if and only if the path is a root file short enough to be remapped and no entry hits the remapped path or makes the code look past its end |
| `PathMap.RequestsLocalBuffer` | src/fcntl.c:38-255 | after any requests: no normal directory entered is above the remapped path, and none that is not normal is kept as it |
| `PathMap.LookupIsLongest` | src/fcntl.c:247-253 | unless the code looks past the end of the path, the first hit is the longest usable directory above it, and there is none only if no usable directory is above it |
| `PathMap.RequestsLookup` | src/fcntl.c:38-253 | so it is after any requests, normal or not: the usable directories are the normal ones that were entered |
| `PathMap.LongestUnique` | src/fcntl.c:247-253 | there is only one such directory |
| `PathMap.AddAllSorted` | src/fcntl.c:85-95 | after any sequence of requests the table is ordered and within its capacity |
| `PathMap.AddAllValid` | src/fcntl.c:38-95 | with normal directories it is free of duplicates and exact |
| `PathMap.AddAllRepresents` | src/fcntl.c:38-95 | distinct requests that fit are all in it, and nothing else |
| `PathMap.OrderIndependent` | src/fcntl.c:38-95 | then every path is translated alike, in whatever order the requests came |
| `LockRange.FitsIffSane` | src/fcntl.c:420-480 | an accepted range fits between 0 and LOCKFILE_MAX if and only if neither argument is INT64_MIN and base plus offset is within LOCKFILE_MAX |
| `LockRange.Misfits` | src/fcntl.c:454-473 | two accepted requests that do not fit, one by a negative size and one by a sum that wraps around |
| `LockRange.RangeIsMeant` | src/fcntl.c:457-477 | under that condition exactly the ranges within the limits are accepted, no sum overflows, and the range holds exactly the bytes POSIX means |
| `LockRange.ShiftPreserves` | src/fcntl.c:497-505 | the shifted ranges overlap exactly where the requests do, and miss all file bytes below LOCKFILE_MAX and the guard byte INT64_MAX |
| `LockRange.GuardBalanced` | src/fcntl.c:507-545 | a guarded attempt ends with the locks of an unguarded one, except that an unknown operation keeps the guard |
| `GetDelim.Grow` | src/stdio.c:34-40 | there is room for one more byte and the terminator, and what was read is kept, for any initial buffer and size; the doubled size wraps around exactly if a buffer of at least 2^63 bytes is full |
| `GetDelim.Getdelim` | src/stdio.c:20-49 | returns the bytes up to and including the first delimiter, or all that are left, with a terminator inside the buffer; if memory is granted it fails exactly at the end or on a read error before the delimiter; its size wraps around only on a piece of at least 2^63 - 2 bytes; with delimiter 0 it reads nothing, and writes without a buffer exactly if it was given none or one of size 0 |
| `GetDelim.PieceShape` | src/stdio.c:33-45 | a piece is not empty, its only delimiter is its last byte, and without one it is all that was left |
| `GetDelim.ReadAll` | src/stdio.c:20-49 | calling until -1 yields the pieces of the whole stream, unless one has at least 2^63 - 2 bytes and the size wraps around |
| `GetDelim.PiecesPartition` | src/stdio.c:20-49 | put together they are the stream, and each but possibly the last ends in its only delimiter |
| `GetDelim.PiecesUnique` | src/stdio.c:20-49 | there is only one way to cut a stream like that |
| `Uuid.VariantRange` | src/uuid.c:81-86 | the mask selects exactly the variant bytes from 0xc0 to 0xdf |
| `Uuid.RoundTrip32` | src/uuid.c:33-69 | putting and getting four bytes are inverse, in either byte order |
| `Uuid.RoundTrip16` | src/uuid.c:50-78 | so are putting and getting two |
| `Uuid.DecodeEncode` | src/uuid.c:89-110 | decoding the bytes of a UUID gives it back, since the byte that selects the order is kept |
| `Uuid.EncodeDecode` | src/uuid.c:89-110 | encoding what any sixteen bytes decode to gives them back |
| `Uuid.ToBytes` | src/uuid.c:89-98 | the array holds exactly the encoding |
| `Uuid.CompareOrder` | src/uuid.c:174-191 | comparison is a total order in which only equal bytes are equal |
| `Uuid.CompareIsMemcmp` | src/uuid.c:174-191 | it is the order of the bytes unless one of the UUIDs is of variant 2 |
| `Uuid.CompareNotMemcmp` | src/uuid.c:174-191 | for variant 2, whatever the other fields are, it can be the opposite |
| `Uuid.ReadPrinted` | src/uuid.c:203-226 | reading what was printed gives the fields back, for upper and lower case |
| `Uuid.PrintRead` | src/uuid.c:217-226 | whatever can be read is printed back as it was, in lower case |
| `Uuid.TextIsBytes` | src/uuid.c:203-226 | unless the UUID is of variant 2 the text is its sixteen bytes in order, in groups of four, two, two, two and six |
| `Uuid.ParseUnparse` | src/uuid.c:160-226 | printing any sixteen bytes and parsing the text gives them back |
| `Uuid.ParseInjective` | src/uuid.c:160-171 | two texts parse alike exactly if they differ in the case of their digits only |

## Left out

- Win32 and C run-time calls themselves: their answers are parameters, with these assumptions: thread ids and handles are nonzero and not reused, `closesocket` releases its socket, `select` reports only sockets it was asked about and returns the sum of both counts, unlocking a held range succeeds, and `UuidFromString` reads the form of section 3 of RFC 4122. `tolower` is that of the C locale.
- `src/getopt.c`: error messages, a null `options` argument, `optind` set to anything but 0 by the caller in mid-run, and option characters above 127.
- Getopt.Scanner.Getopt: says nothing of what the code does once it has misread a long option whose value is -1: after `--` it goes on with the letters of the name as short options of an argument that it has already passed, and after `-W` it returns -1 in mid-run. The same holds of Getopt.Scanner.ReadOption and Getopt.ParseAll.
- Getopt.MisreadIff: does not cover long options whose name is empty or starts with `=`, which no name given after dashes spells out; Getopt.NeverMisread covers them where no value is -1.
- `inc/sys/queue.h`: `STAILQ`, `LIST` and `SLIST`, the `_SAFE` and `_FROM` walks and the debugging aids: the same argument on simpler links.
- `src/aio.c`: posting to the ring and reaping from it are atomic steps, as the source's comments demand; `io_destroy`, `io_cancel` and the test blocks are not part of this model.
- Threads.ReleasedExactlyOnce: the record of a thread that never started is not freed by the code, and the statement says so instead of excluding such threads; failure to allocate a record changes nothing and is not a step.
- `src/pthread.c`: mutexes, barriers, conditions and attributes only delegate.
- `src/socket.c`: `wpdk_socket_cleanup`, which may run only when nothing else does; the domain and flags of a slot, which are written after it has been claimed; sending and receiving.
- Epoll.Table.Wait: says nothing of what the code does once it reads past its arrays; the table of epoll descriptors is not part of this model.
- PathMap.Store.GetPath: says nothing of what the code returns once it looks past the end of a path, at the character `len - |path|` places behind its terminator: one for each slash that was dropped from the directory.
- `src/fcntl.c`: where the mappings come from (environment variables), `fcntl` commands other than locks, and whether a probe of a lock is atomic.
- GetDelim.Getdelim: says nothing of what the code does once the size has wrapped around; null arguments are refused by the code before anything happens.
- `src/error.c`, `src/md5.c`, `src/inet.c`, `src/netdb.c`, `src/dirent.c`, `src/stat.c`, `src/mman.c`, `src/semaphore.c`, `src/signal.c`, `src/regex.c`, `src/syslog.c` and other files: tables, wrappers over foreign code and stubs, which make no promise beyond the calls they hand on.
