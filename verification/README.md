# Verification of wruster's concurrent and stateful core

This project models the parts of wruster whose behaviour depends on interleavings, on mutable structures or on loops over
bytes, and proves what they promise.

- **The thread pool** (`PoolProtocol`, `PoolInvariant`, `PoolSafety`, `PoolLiveness`, `PoolOutcome`, `PoolCapacity`,
  `ThreadPool`). One
  submitting thread and any number of workers are a step system: an event is one atomic step of one thread, and a run is
  any sequence of enabled events. Static and dynamic workers, the queue of free slots with its lock, the rendezvous of a
  zero-capacity channel, time-outs, slot reuse and `drop` are all steps. The invariant, the conservation of actions, the
  bound on concurrency and termination are statements about every run. `ThreadPool.Pool` is the submitting thread in its
  own form, loops over mutable fields with the workers free to move between any two atomic actions; each of its methods
  is proved to be a path of the step system, so the statements about runs hold of it.
- **The router** (`Trie`, `PathNormalize`, `NormalizeLaws`, `NormalPaths`, `HttpMethods`, `Router`, `RouterPromise`). The
  trie is a mutable 256-way tree of objects proved equal to a map; `normalize` is a text buffer changed by `push` and
  `parent` proved equal to evaluating path components on a stack, which laws on bytes determine; `run_action` puts the two
  together. When that keeps the documented promise of the router is settled for every path and every table of routes.
- **HTTP messages** (`HttpText`, `Utf8`, `Utf8Exact`, `HttpReader`, `HttpHeaders`, `HeaderNames`, `HeaderRoundTrip`,
  `HeaderFailures`, `HttpStatus`, `HttpBody`, `HttpMessages`, `HttpLibraryMessages`, `WireForm`, `HttpConnection`,
  `HttpConversation`, `HttpPersistence`). Reading and writing are loops
  over bytes behind a buffer, proved equal to functions on byte sequences. Every read is modelled for every way the stream
  can end: in an end of input, or in a fault at any point, with the mapping of its error. The round trips are
  if-and-only-if statements for every header order, every following input and every such end; the framing of bodies holds
  whatever a handler reads; and a whole conversation is described turn by turn, with what every turn leaves for the next.
  What decides these functions is stated once more in literal bytes. Texts are the bytes of their UTF-8 encoding.
- **Small stateful guards** (`ObservedStreams`, `StreamLives`, `PolledWrites`, `TimedStreams`, `ConnectionPool`): the
  list of tracked streams as a step system, the write loop against any poller and any short-writing socket with the time it takes, the
  time-out budget, and the client's pool of idle connections.

## Where the code does less than one may expect

Each of these is a statement of the model, with the exact condition.

- A header line made of token characters only, without a colon, is indexed past its end. The reader of a header block
  panics exactly when the first line that is no field is such a line (`HeaderFailures.BlockPanicsExactly`), so a request
  with the header line "X" brings its thread down (`HeaderFailures.OneWordPanics`).
- Where the input ends before the blank line and the stream reports an end of input, the loop reads nothing for ever
  (`HeaderFailures.BlockHangsExactly`, `HeaderFailures.NoHeadersHangs`). The server's own stream reports a fault instead,
  and never hangs (`HttpConversation.NeverHangs`).
- Header values come back unchanged exactly when they are ASCII (`HttpText.Latin1Exact`,
  `HeaderRoundTrip.HeadersRoundTripExactly`): a byte from 0x80 on is read as the character of that number and written in
  UTF-8, so the two bytes of an accented letter come back as four (`HeaderRoundTrip.AccentIsChanged`).
- A response without a body is changed by being written: written twice it carries two lengths and cannot be read
  (`HttpLibraryMessages.SecondWriteIsUnreadable`). `Response::from_str` announces no length, so the reader leaves its body
  in the stream (`HttpLibraryMessages.FromStrLeavesItsBody`).
- Every message is read through a buffer of its own, which is dropped with what it read ahead, at most a buffer
  (`HttpConversation.LostWithinBuffer`). What is sent behind a request survives exactly when the reads of its body end
  where the reading of the stream stopped; without a body, when a chunk delivered by the stream ends where the request
  ends (`HttpConversation.NextRequestIsThereExactly`). Of two small requests that arrive together the second is never
  answered (`HttpConversation.SecondPingIsLost`). A peer that waits for each answer has exactly the requests up to the
  first non-persistent one answered (`HttpConversation.Socket.Conversation`, `HttpConversation.AnsweredExactly`).
- A handler that takes the body out of the request keeps the rest of it from being read. A body it took and did not read
  is what the next turn finds, exactly when a chunk ends with the head of the request
  (`HttpConversation.TakenBodyIsNextExactly`), and if that body reads as a request, it is answered
  (`HttpConversation.TakenPingIsAnswered`).
- `normalize` on a path cut at a separator gives what it gives on the whole, except where the first part is empty and the
  rest is valid below the root (`PathNormalize.PiecewiseExactly`, `PathNormalize.EmptyPrefixFails`).
- A response made from content of length zero does not come back as it was, nor does one made from a source shorter than
  the length announced, unless the stream ends with it (`HttpLibraryMessages.FromContentRoundTripsExactly`).
- The documentation of `Router::add` promises that the nearest registered parent path serves a request. For every path
  and method this is so exactly when the longest registered beginning of the path serves it and has a handler, or has
  none and no route that serves the path has one (`RouterPromise.KeepsExactly`). It is so for all normalised paths exactly
  when every route that begins one ends in a separator and has every method of the routes it extends
  (`RouterPromise.ServesAsDocumentedExactly`). So every registered normalised path but the root serves one it is no parent
  of (`RouterPromise.EveryRouteOvermatches`): "/a" serves "/ab" (`RouterPromise.Neighbour`). And "/a/b" without GET hides
  GET for "/a" from "/a/b/c" (`RouterPromise.Hidden`).
- `insert` on a full client pool evicts an entry and does not store the newcomer, even when its key is already there
  (`ConnectionPool.Pool.Insert`); with a hundred connections a newcomer costs the oldest one and is not kept
  (`ConnectionPool.NewcomerIsLost`).
- The time-out budget records whole seconds, and every wait of a call may last all that is left of it. It bounds the real
  time of k calls that wait so often each exactly when so many times the timeout's whole seconds, and a second less a
  tick for each call but the last, fit into the timeout (`TimedStreams.BudgetBoundsTimeExactly`).
  - A read waits once. Its time is bounded for one call always, for two with a timeout a tick short of a whole second,
    for three never (`TimedStreams.ReadsAreBoundedExactly`).
  - A write waits anew for every part the socket takes. With more than one wait not even one write is bounded
    (`TimedStreams.WritesAreNotBounded`): a peer that takes one byte at a time at the end of each wait has a single
    successful write last the timeout as many times as the buffer has bytes (`TimedStreams.LongWrite`). A write lasts at
    most its waits times its grant, and no less in the worst case (`PolledWrites.WriteLasts`,
    `PolledWrites.WriteLastsThisLong`); it surely keeps to its grant exactly when it waits once at most
    (`PolledWrites.PunctualExactly`). Over all pollers that keep to their waits only writes of nothing surely do, and of
    one byte if every wait finds room (`PolledWrites.AnyPollerExactly`, `PolledWrites.ProgressingPollerExactly`).
  - Any number of writes of just under a second are each granted the full timeout (`TimedStreams.SlowWrites`).
- `Static::run` with a single worker tries it twice before it gives up (`ThreadPool.Pool.StaticRun`).

## Model

| member | source | states |
|---|---|---|
| PoolInvariant.InvInit | wruster/src/thread_pool/mod.rs:28-39 | A new pool of any sizes satisfies the invariant. |
| PoolInvariant.StepKeepsInv | wruster/src/thread_pool/dynamic_pool.rs:30-154 | Every step of every thread keeps the invariant: no duplicate free slots, a slot is queued exactly when its worker is past its push and it is not being refilled, one holder of the lock, static workers stop only once their sender is gone, workers joined by `drop` have stopped. |
| PoolInvariant.RunKeepsInv | wruster/src/thread_pool/dynamic_pool.rs:30-154 | The invariant holds after every interleaving. |
| PoolSafety.FreeSlotsExact | wruster/src/thread_pool/dynamic_pool.rs:109-154 | While no thread is inside `try_add_worker`, the queue of free slots has no duplicates and holds exactly the slots that are empty or whose worker has pushed its index; `number_of_workers` is the number of unfinished workers, at most `max`. |
| PoolSafety.JoinUnderLockIsSafe | wruster/src/thread_pool/dynamic_pool.rs:72-124 | The thread joined while the lock on the free slots is held is already past its own push and can run to its end without that lock. |
| PoolSafety.StepKeepsBalance | wruster/src/thread_pool/mod.rs:41-53 | Every step keeps the balance: submitted equals executed plus handed back plus held by one thread, action by action. |
| PoolSafety.RunKeepsBalance | wruster/src/thread_pool/mod.rs:41-53 | The balance holds after every interleaving. |
| PoolSafety.ExactlyOnePlace | wruster/src/thread_pool/mod.rs:28-53 | In every run of a new pool an action submitted once is in exactly one place: executed once, handed back, or with one thread. One never submitted is nowhere. |
| PoolSafety.BoundedConcurrency | wruster/src/thread_pool/mod.rs:28-39 | In every run at most `min` actions (if `min >= max`) or `max` actions (otherwise) are in progress at once. |
| PoolCapacity.BoundIsReached | wruster/src/thread_pool/mod.rs:28-53 | For all sizes the bound is reached: some run of a new pool has `min` actions in progress (if `min >= max`) or `max` (otherwise), one for each action submitted, and hands none back. |
| PoolCapacity.TiredWorkerGivesBack | wruster/src/thread_pool/dynamic_pool.rs:35-55 | From every state in which a dynamic worker waits and the lock is free, that worker alone can time out, put its slot, which was not there, into the queue of free slots, and stop. |
| PoolLiveness.StepDecreases | wruster/src/thread_pool/static_pool.rs:80-110 | Every step that starts nothing new lowers one measure over the phases of all threads and the progress of the call. |
| PoolLiveness.StepsBounded | wruster/src/thread_pool/mod.rs:41-53 | A started call is over after boundedly many steps of all threads together. |
| PoolLiveness.NeverStuck | wruster/src/thread_pool/dynamic_pool.rs:109-126 | In the middle of `run` or `drop` some thread can always move: no deadlock on slot reuse. |
| PoolLiveness.RunReturns | wruster/src/thread_pool/mod.rs:41-53 | Under every scheduler `run` returns, within a bound on the number of steps. |
| PoolLiveness.GoneIsClean | wruster/src/thread_pool/dynamic_pool.rs:72-79 | After `drop` every thread has stopped, and every submitted action was executed or handed back. |
| PoolLiveness.DropEnds | wruster/src/thread_pool/static_pool.rs:53-59 | `drop` from every reachable state ends under every scheduler, with all threads stopped and every accepted action executed. |
| PoolOutcome.ScanVerdict | wruster/src/thread_pool/dynamic_pool.rs:134-147 | The scan over the dynamic workers hands the action back exactly when no worker from the current one on waits. |
| PoolOutcome.DynamicVerdict | wruster/src/thread_pool/dynamic_pool.rs:128-148 | Undisturbed, `Dynamic::run` hands the action back exactly when no slot is free and no dynamic worker waits. |
| PoolOutcome.StaticVerdict | wruster/src/thread_pool/static_pool.rs:92-109 | From any point of the round, the static pool passes the action on exactly when none of the workers left to try waits. |
| PoolOutcome.RunFailsExactlyWhenBusy | wruster/src/thread_pool/mod.rs:41-53 | With no worker step in between, `Pool::run` fails exactly when no static worker waits, no dynamic slot is free and no dynamic worker waits. |
| PoolOutcome.NextTakes | wruster/src/thread_pool/static_pool.rs:81-91 | If the worker at `next` waits it gets the action, `next` moves just past it, and nothing else changes. |
| PoolOutcome.ConsecutiveRuns | wruster/src/thread_pool/static_pool.rs:80-110 | With waiting workers, consecutive runs go to consecutive workers: a round of `size` runs gives each static worker exactly one action. |
| ThreadPool.StaticAttempt | wruster/src/thread_pool/static_pool.rs:81-101 | One attempt of the round robin has one of the outcomes the step system allows. |
| ThreadPool.Pool.constructor | wruster/src/thread_pool/mod.rs:28-39 | The object starts as the step system's new pool: `min` static workers and `max - min` dynamic slots, none if `min >= max`, each vacant and queued once. |
| ThreadPool.Pool.Exec | wruster/src/thread_pool/static_pool.rs:41-50 | `exec` succeeds exactly when the worker waits at that moment, and then that worker runs the action. |
| ThreadPool.Pool.StaticRun | wruster/src/thread_pool/static_pool.rs:80-110 | With workers moving freely: the action goes to the first worker found waiting in cyclic order from `next`, which moves just past it; otherwise each was found busy once (a single one twice) and `next` is unchanged. It ends for every size. |
| ThreadPool.Pool.AwaitLock | wruster/src/thread_pool/dynamic_pool.rs:110-110 | Waiting for the lock on the free slots ends whatever the scheduler does. |
| ThreadPool.Pool.JoinReplaced | wruster/src/thread_pool/dynamic_pool.rs:124-124 | Joining the slot's old thread under the lock ends whatever the scheduler does. |
| ThreadPool.Pool.TryAddWorker | wruster/src/thread_pool/dynamic_pool.rs:109-126 | It returns under every scheduler and succeeds exactly when the queue of free slots was not empty at the pop under the lock; then, after the join, the first of those slots holds the new worker, which is not past its push, and the lock is free. |
| ThreadPool.Pool.DynamicRun | wruster/src/thread_pool/dynamic_pool.rs:128-148 | With workers moving freely: if the queue of free slots is not empty at the pop, the first of them gets a new worker; otherwise the first worker found waiting takes the action; it is handed back exactly when the queue was empty at the pop and each worker in order was found not waiting at its probe. |
| ThreadPool.Pool.Run | wruster/src/thread_pool/mod.rs:41-53 | `run` returns under every scheduler, is a path of the step system, and hands back the very action it was given exactly when it fails. |
| ThreadPool.Pool.Drop | wruster/src/thread_pool/static_pool.rs:53-59 | `drop` joins the dynamic workers in order, then the static ones, ends, and leaves every thread stopped. |
| ThreadPool.Pool.JoinCurrent | wruster/src/thread_pool/dynamic_pool.rs:72-79 | Joining a worker whose sender is gone ends whatever the scheduler does. |
| Trie.PrefixBelow | wruster/src/router/trie.rs:119-134 | Where the empty key is not stored, the longest stored prefix is found one level down. |
| Trie.PrefixHere | wruster/src/router/trie.rs:130-134 | A node's own value is what longer prefixes fall back to. |
| Trie.Level.AddToChild | wruster/src/router/trie.rs:72-81 | Taking a child out, adding to it and putting it back updates the map below its byte and no other. |
| Trie.Level.AddValue | wruster/src/router/trie.rs:72-81 | `add_value_to_children` is a map update, with a node made where there was none. |
| Trie.Level.MoveFromChild | wruster/src/router/trie.rs:141-147 | Moving a value out of a child removes one key below its byte and leaves every other child as it was. |
| Trie.Node.AddValue | wruster/src/router/trie.rs:91-97 | Adding to a node is a map update, the empty key being its own value. |
| Trie.Node.MoveValueOut | wruster/src/router/trie.rs:137-148 | Lookup and removal; the emptied node stays and stands for the empty map. |
| Trie.Node.GetValuePrefix | wruster/src/router/trie.rs:112-135 | The value of the longest stored prefix below the node, or the accumulator when there is none. |
| Trie.Trie.AddValue | wruster/src/router/trie.rs:12-15 | `add_value` is map update on non-empty keys. |
| Trie.Trie.MoveValueOut | wruster/src/router/trie.rs:30-41 | `move_value_out` is lookup plus removal of that key; every other key is untouched. |
| Trie.Trie.GetValue | wruster/src/router/trie.rs:17-28 | `get_value` is lookup, in every trie reachable by adds and move-outs. |
| Trie.Trie.GetValuePrefix | wruster/src/router/trie.rs:43-54 | The value of the longest stored key that is a byte prefix, and `None` exactly when no stored key is one. |
| Trie.PrefixValueUnique | wruster/src/router/trie.rs:112-135 | What `get_value_prefix` promises determines its result. |
| PathNormalize.PushRendered | wruster/src/router/mod.rs:139-141 | Pushing a name on the rendered buffer renders the stack with that name on top. |
| PathNormalize.ParentRendered | wruster/src/router/mod.rs:127-138 | The parent of the rendered buffer renders the stack without its top, and there is none exactly for the empty stack. |
| PathNormalize.Normalize | wruster/src/router/mod.rs:116-146 | The loop over the text buffer computes what evaluating the components on a stack of names computes. |
| NormalizeLaws.NormalizedObeys | wruster/src/router/mod.rs:116-146 | On the bytes: a path that does not begin with "/" is invalid; behind any path, and at the root behind none, the pieces "" and "." stay where that led, ".." goes up and is invalid at the root, and any other piece goes down. |
| NormalizeLaws.LawsDetermine | wruster/src/router/mod.rs:116-146 | Every function that obeys these laws is the one that is computed. |
| NormalizeLaws.PlacesReached | wruster/src/router/mod.rs:116-146 | Only "/" and texts that begin with "/" and do not end in it come out. |
| NormalizeLaws.Stays | wruster/src/router/mod.rs:116-146 | "/" and "/." behind a path change nothing. |
| NormalizeLaws.GoesUp | wruster/src/router/mod.rs:127-138 | "/.." behind a path that comes to `r` is invalid if `r` is "/", and otherwise comes to `r` cut before its last "/", or "/". |
| NormalizeLaws.GoesDown | wruster/src/router/mod.rs:139-141 | A name behind it comes to `r` with the name appended. |
| NormalizeLaws.UpFromA | wruster/src/router/mod.rs:116-146 | Concrete cases: "/" and "/a/.." come to "/", "/.." is invalid. |
| PathNormalize.SucceedsExactly | wruster/src/router/mod.rs:119-131 | It succeeds exactly for rooted paths of which no component prefix has more `..` than names. |
| PathNormalize.ResultIsNormal | wruster/src/router/mod.rs:116-146 | The result has no `.`, `..` or empty component, and normalising it again gives it back. |
| PathNormalize.NormalizePrefixFirst | wruster/src/router/mod.rs:116-146 | For rooted p, normalising p + "/" + q equals normalising the normal form of p, "/" and q. |
| PathNormalize.UnrootedStaysInvalid | wruster/src/router/mod.rs:119-121 | A non-empty path that is not rooted is invalid whatever is appended. |
| PathNormalize.PiecewiseExactly | wruster/src/router/mod.rs:116-146 | For every p and q, normalising p + "/" + q equals normalising the normal form of p, "/" and q, and failing where p fails, exactly when p is not empty or q is not valid below the root. |
| PathNormalize.EmptyPrefixFails | wruster/src/router/mod.rs:116-146 | The concrete case: the empty path is invalid, but "/" is valid. |
| Router.MethodHandlers.SetAction | wruster/src/router/mod.rs:56-56 | One method's handler is replaced, every other one kept. |
| Router.Router.Add | wruster/src/router/mod.rs:48-58 | Move out, edit and re-insert is last-write-wins on the pair of route and method and preserves every other pair. |
| Router.Router.Get | wruster/src/router/mod.rs:61-68 | Lookup in that table. |
| Router.Router.GetPrefix | wruster/src/router/mod.rs:70-77 | The method's entry of the longest registered route that is a byte prefix; no fallback to a shorter one. |
| Router.RunAction | wruster/src/lib.rs:635-656 | The handler chosen is the entry for the normalised URI, which the request then carries; 404 exactly when the URI normalises and there is no entry, 500 exactly when it does not normalise. |
| NormalPaths.NormalExactly | wruster/src/router/mod.rs:116-146 | The results of `normalize`, the paths it leaves as they are, are exactly the root and the rooted paths all of whose pieces between separators are proper names. |
| NormalPaths.OpenExactly | wruster/src/router/mod.rs:116-146 | A text is the beginning of a normalised path, to be gone on with a letter, exactly when it is rooted and all its pieces but the last are proper names. |
| RouterPromise.GetPrefixIsUsed | wruster/src/router/mod.rs:70-77 | The handler `get_prefix` finds is that of the longest registered beginning, and there is none exactly when that has none for the method. |
| RouterPromise.KeepsExactly | wruster/src/router/mod.rs:38-77 | For every table, path and method: the route used is the documented one (or both are none) exactly when the longest registered beginning serves the path and has a handler, or it is absent or has none and no serving route has one. |
| RouterPromise.KeepsAlwaysExactly | wruster/src/router/mod.rs:38-77 | For every table: that holds for all normalised paths and methods exactly when every route that begins a normalised path ends in a separator and has all methods of the routes it extends. |
| RouterPromise.ServesAsDocumentedExactly | wruster/src/router/mod.rs:38-77 | The same for every router the code can build. |
| RouterPromise.EveryRouteOvermatches | wruster/src/router/mod.rs:38-77 | Every registered normalised path other than the root gives some normalised path served by a route that is no parent of it. |
| RouterPromise.Neighbour | wruster/src/router/mod.rs:38-77 | A concrete case: with "/a" alone registered, "/ab" is served. |
| RouterPromise.Hidden | wruster/src/router/mod.rs:38-77 | A concrete case: with GET for "/a" and POST for "/a/b", GET for "/a/b/c" finds nothing, though "/a" is the documented route. |
| HttpText.Latin1Exact | wruster/src/http/headers.rs:305-316 | A byte string survives being read as Latin-1 characters and written as UTF-8 exactly when it is ASCII. |
| HttpText.DecimalRoundTrip | wruster/src/http/mod.rs:436-442 | Printing a number and parsing it gives it back exactly when it is below the limit of the machine's word. |
| HttpText.DecimalLength | wruster/src/http/mod.rs:768-770 | A number prints as three digits exactly when it lies between 100 and 999. |
| WireForm.ParsesExactly | wruster/src/http/mod.rs:433-442 | A text is parsed as a number exactly when it is that number in decimal, behind any zeros, with or without a plus sign, and below the limit. |
| WireForm.DecimalByDigits | wruster/src/http/mod.rs:436-442 | Numbers are printed digit by digit, as the bytes 48 to 57. |
| WireForm.ClassesExactly | wruster/src/http/mod.rs:913-948 | The token characters, the bytes of values and the blanks, byte by byte. |
| HttpReader.FilledWithinBuffer | wruster/src/http/mod.rs:65-65 | The line reader takes less than one buffer more off the stream than it uses. |
| HttpReader.LargeReadsKeepUp | wruster/src/http/mod.rs:477-513 | Reads of a buffer or more from an empty buffer take nothing more off the stream than they use. |
| HttpReader.SmallReadRunsAhead | wruster/src/http/mod.rs:477-513 | A smaller one takes what the stream delivers, up to a buffer; what is buffered is used up first. |
| HttpReader.Reader.ReadPart | wruster/src/http/mod.rs:65-65 | One buffer's worth of a line: never past the first delimiter, empty only at the end of input. |
| HttpReader.Reader.ReadUntil | wruster/src/http/headers.rs:231-233 | However the stream cuts its deliveries, the bytes up to and including the first delimiter are read; without one, all there are or the fault of the stream. |
| HttpReader.Reader.ReadSome | wruster/src/http/mod.rs:463-463 | A limited read hands out the next bytes in order, and meets the fault of the stream exactly where none are left. |
| HttpHeaders.LineLength | wruster/src/http/headers.rs:229-242 | The length up to and including the first CRLF; zero exactly when there is none. |
| HttpHeaders.CrlfOnlyAtEnd | wruster/src/http/headers.rs:229-242 | Adding chunks that end in their first newline, a CRLF can only appear at the very end, and it is the first of the input. |
| HttpHeaders.ReadLine | wruster/src/http/headers.rs:220-244 | The line read ends with the first CRLF whatever lone newlines come before it, and exactly it is consumed; without a CRLF ahead the fault of the stream is met, or the loop never ends. |
| HttpHeaders.NormalName | wruster/src/http/headers.rs:384-399 | A normalised name equals the name up to ASCII case. |
| HttpHeaders.NormalNameStable | wruster/src/http/headers.rs:384-399 | Normalising a name again changes nothing. |
| HttpHeaders.NormalizeHeaderName | wruster/src/http/headers.rs:384-399 | The loop with its flag computes the normalised name. |
| HeaderNames.NormalNameAt | wruster/src/http/headers.rs:383-399 | For every name and place: a lower-case letter that is the first letter or digit behind the beginning, a space or a dash becomes its capital, and every other byte stays. |
| HeaderNames.LowerCaseLengthIsRead | wruster/src/http/headers.rs:242-399 | A concrete case: the line "content-length: 5" is read as the header "Content-Length" with the value "5". |
| HeaderNames.FiveBytesFramed | wruster/src/http/mod.rs:409-472 | And that header frames a body of five bytes. |
| HttpHeaders.ReadToken | wruster/src/http/headers.rs:262-271 | The loop over the name takes the longest prefix of token characters. |
| HttpHeaders.SkipBlanks | wruster/src/http/headers.rs:300-304 | The loop over the blanks stops at the first byte that is none. |
| HttpHeaders.ReadValue | wruster/src/http/headers.rs:305-317 | The value is accepted exactly when all its bytes are field content, and is then its Latin-1 reading. |
| HttpHeaders.ParseHeaderLine | wruster/src/http/headers.rs:246-325 | The three loops of `parse_header_line` compute its outcome for every line, the panic included. |
| HttpHeaders.FieldIsRead | wruster/src/http/headers.rs:279-324 | A token, a colon and at least one byte of field content is read as the header with the normalised name and the value without its leading blanks. |
| HttpHeaders.AcceptsExactly | wruster/src/http/headers.rs:246-325 | A non-blank line is accepted exactly when it is a non-empty token, a colon and one or more bytes of field content (RFC 7230 sections 3.2 and 3.2.6, without empty values). |
| HttpHeaders.PanicsExactly | wruster/src/http/headers.rs:279-286 | The parser panics exactly on a non-empty line of token characters only. |
| WireForm.OtherLinesAreInvalid | wruster/src/http/headers.rs:242-330 | A blank line ends the headers, and a line that is neither read nor makes the reader panic is an invalid request. |
| HeaderFailures.BlockEndsExactly | wruster/src/http/headers.rs:70-90 | A header block is read exactly when a blank line comes behind lines that are all fields. |
| HeaderFailures.BlockPanicsExactly | wruster/src/http/headers.rs:279-286 | Reading a header block panics exactly when the first line that is no field has token characters only. |
| HeaderFailures.BlockHangsExactly | wruster/src/http/headers.rs:229-242 | Reading a header block never ends exactly when all lines there are, are fields, and the stream reports an end of input; with a fault instead, that fault is met. |
| HeaderFailures.OneWordPanics | wruster/src/http/headers.rs:279-286 | A complete request with the header line "X" panics its reader, whatever follows. |
| HeaderFailures.NoHeadersHangs | wruster/src/http/headers.rs:229-242 | A request that ends with its first line is read for ever from a stream that reports an end of input, and fails on one that fails. |
| HttpHeaders.Headers.Add | wruster/src/http/headers.rs:107-112 | The value is appended to those of its name; every other name is untouched. |
| HttpHeaders.Headers.ReadFrom | wruster/src/http/headers.rs:70-90 | The loop collects the headers up to the blank line and stands behind it, or ends as the first bad line ends. |
| HttpHeaders.Headers.Write | wruster/src/http/headers.rs:165-188 | Whatever order the map is visited in, each name's lines are written once, its values in order, and then the blank line. |
| HeaderRoundTrip.OneLine | wruster/src/http/headers.rs:350-375 | A written header line is the next line of any input that starts with it. |
| HeaderRoundTrip.OneLineParses | wruster/src/http/headers.rs:350-375 | And it is read as that header, its value as Latin-1. |
| HeaderRoundTrip.WrittenIsReadBack | wruster/src/http/headers.rs:165-188 | Readable headers written in any order come back, with Latin-1 made UTF-8, and exactly the bytes written are consumed. |
| HeaderRoundTrip.AsciiReadsBackUnchanged | wruster/src/http/headers.rs:305-316 | What comes back is what was written exactly when all values are ASCII. |
| HeaderRoundTrip.AccentIsChanged | wruster/src/http/headers.rs:305-316 | A concrete case: the two bytes of an accented letter come back as four. |
| HeaderRoundTrip.AnyReadIsReadable | wruster/src/http/headers.rs:70-90 | Whatever is read has normalised token names and field content without a leading blank as values. |
| HeaderRoundTrip.HeadersRoundTripExactly | wruster/src/http/headers.rs:165-188 | For every map, order and tail: the headers come back unchanged exactly when names are normalised tokens with at least one value and values are ASCII field content without a leading blank. |
| HttpStatus.NamedStatusIsGood | wruster/src/http/status.rs:67-216 | Every named status survives the way to its number and back. |
| WireForm.SuccessNumbers | wruster/src/http/status.rs:165-173 | The numbers of the statuses below 300. |
| WireForm.RedirectionNumbers | wruster/src/http/status.rs:174-180 | Those from 300 on. |
| WireForm.ClientErrorNumbers | wruster/src/http/status.rs:181-189 | Those from 400 on. |
| WireForm.LaterErrorNumbers | wruster/src/http/status.rs:190-198 | Those from 409 on. |
| WireForm.ServerErrorNumbers | wruster/src/http/status.rs:199-204 | Those from 500 on. |
| WireForm.NumberOfStatus | wruster/src/http/status.rs:114-160 | The status made from a number has that number. |
| HttpStatus.StatusLineReadsBack | wruster/src/http/mod.rs:745-833 | A written status line is read as the status its number stands for if that has three digits, and is refused otherwise; exactly it is consumed. |
| HttpStatus.StatusLineRoundTripsExactly | wruster/src/http/mod.rs:745-833 | A status line comes back exactly when its number has three digits and is not an extension code for a named status, whatever follows and however the stream ends. |
| HttpStatus.VersionExactly | wruster/src/http/mod.rs:793-823 | A version is valid exactly when it is "HTTP/" and two numbers below 256 with a dot between them. |
| HttpStatus.StatusLineAcceptsExactly | wruster/src/http/mod.rs:745-791 | Any input is read as a status and a rest exactly when it is a version (trailing Unicode blanks aside), a space, three bytes that make that status's number, a space, and at least three bytes up to a newline or an end without a fault, then the rest. |
| HttpStatus.ReadStatusLineFrom | wruster/src/http/mod.rs:745-791 | Reading one delimiter at a time computes the status line, with its errors and those of the stream. |
| WireForm.StatusLineFails | wruster/src/http/mod.rs:745-791 | A status line that is not read is a time-out where nothing but part of a version has come, a closed connection where nothing has, and otherwise unknown. |
| WireForm.TrimsExactly | wruster/src/http/mod.rs:761-771 | Behind any bytes a character is trimmed from the end exactly when it is one of the white-space characters. |
| HttpBody.Body.Read | wruster/src/http/mod.rs:503-513 | `bytes_read` counts what went through `read`, and stays within the frame. |
| HttpBody.Body.EnsureRead | wruster/src/http/mod.rs:477-486 | The subtraction never underflows, and afterwards the reader stands exactly `content_length` bytes past the start of the body, given that many bytes exist; it fails exactly when they do not and the stream fails. |
| HttpBody.Body.AfterAnyHandler | wruster/src/http/mod.rs:463-513 | The same after any mix of short reads through `read` and through the public `content`. |
| HttpBody.FrameExactly | wruster/src/http/mod.rs:409-472 | For every map of headers: there is a body exactly when the encoding is absent or the single value "identity", one length is announced, a number above zero, and the media type is absent or parses, with that length and type; there is none exactly when no length or zero is announced; anything else is an error. |
| WireForm.FrameByName | wruster/src/http/mod.rs:409-472 | The same in the names and words of the protocol. |
| HttpBody.BodyFrom | wruster/src/http/mod.rs:409-472 | The look-ups in the order of the code make the body that `FrameExactly` describes, at the place where the reader stands, with nothing read of it. |
| HttpMessages.FrameRead | wruster/src/http/mod.rs:409-472 | The reader finds the body that was written exactly when the headers frame it right. |
| HttpMessages.MessageRoundTripsExactly | wruster/src/http/mod.rs:614-632 | Headers and body come back, with the added length if there is no body, and exactly the bytes written are consumed, exactly for well-formed headers that frame the body right, whatever follows and however the stream ends. |
| HttpMessages.ResponseRoundTripsExactly | wruster/src/http/mod.rs:690-716 | The same for whole responses, for every header order and every tail. |
| HttpMessages.RequestLineRoundTripsExactly | wruster/src/http/mod.rs:241-296 | A request line comes back exactly when its URI is a non-empty, space-free string and its version a non-empty, newline-free one; exactly it is consumed. |
| HttpMessages.RequestLineAcceptsExactly | wruster/src/http/mod.rs:241-288 | Any input is read as a request line and a rest exactly when it is a method's name, space-free bytes and newline-free bytes as they are written, then the rest, the line holding their lossy conversion; only at an end without a fault may another byte stand for the newline. |
| WireForm.MethodNames | wruster/src/http/mod.rs:868-901 | The names of the methods. |
| WireForm.NoMethod | wruster/src/http/mod.rs:245-254 | A request line without a space ends in the fault of the stream (a time-out, a closed connection, or unknown), or, where the stream ends, in a closed connection if nothing came and an invalid request otherwise. |
| WireForm.UnknownMethod | wruster/src/http/mod.rs:255-259 | It is invalid if what stands before the first space is no method's name. |
| WireForm.NoUri | wruster/src/http/mod.rs:261-267 | Any fault before the second space is unknown. |
| WireForm.EmptyUri | wruster/src/http/mod.rs:265-267 | An empty URI is invalid. |
| WireForm.NoVersion | wruster/src/http/mod.rs:271-273 | A fault before the end of the line is told as what it is. |
| WireForm.BadVersion | wruster/src/http/mod.rs:274-280 | An empty version, or one without a CR before the newline, is invalid. |
| WireForm.HeadersCutShort | wruster/src/http/headers.rs:228-240 | Headers without their end come to the fault of the stream. |
| WireForm.BodyCutShort | wruster/src/http/mod.rs:477-486 | And so does a body shorter than announced. |
| Utf8.LossyAscii | wruster/src/http/mod.rs:255-281 | The lossy conversion leaves ASCII as it is and makes nothing else ASCII, so it changes neither which methods are known nor any request line in ASCII. |
| Utf8Exact.KeptExactly | wruster/src/http/mod.rs:255-281 | Bytes come through the lossy conversion unchanged exactly when they are the UTF-8 encoding of some characters. |
| Utf8Exact.LossyIsText | wruster/src/http/mod.rs:255-281 | Whatever the bytes, the result is such an encoding. |
| Utf8Exact.CutShort | wruster/src/http/mod.rs:255-281 | Concrete cases: a character cut short is replaced once, bytes that begin none once each. |
| Utf8Exact.Latin1Encodes | wruster/src/http/headers.rs:305-316 | A header value is read as the characters of its bytes' numbers, in UTF-8. |
| HttpMessages.RequestRoundTripsExactly | wruster/src/http/mod.rs:63-86 | The same for whole requests, for every header order and every tail. |
| HttpLibraryMessages.FromContentRoundTripsExactly | wruster/src/http/mod.rs:656-675 | For every media type, length and source: the response comes back whole, whatever follows it, exactly when the type is one in clean ASCII and the source has the length announced, which is not zero; a shorter source only where the stream ends with it. |
| WireForm.EmptyResponseText | wruster/src/http/mod.rs:614-632 | The text of an empty answer: "HTTP/1.1 200 OK", "Content-Length: 0", and a blank line. |
| WireForm.ContentResponseText | wruster/src/http/mod.rs:614-675 | The text of an answer made from content, for every type, length and source. |
| HttpLibraryMessages.FromStrLeavesItsBody | wruster/src/http/mod.rs:719-734 | A response made from a string comes back without its body, which is left in front of what follows. |
| HttpLibraryMessages.TwoLengthsAreUnreadable | wruster/src/http/mod.rs:427-431 | Headers with two lengths make the message unreadable. |
| HttpLibraryMessages.SecondWriteIsUnreadable | wruster/src/http/mod.rs:621-626 | A response without a body that is written a second time cannot be read. |
| HttpConnection.ResponseMessage.Write | wruster/src/http/mod.rs:614-632 | What `Response::write` sends, and that it adds a length to the headers of a response without a body. |
| HttpConnection.RequestMessage.Write | wruster/src/http/mod.rs:129-148 | What `Request::write` sends. |
| HttpConnection.ReadRequestLineFrom | wruster/src/http/mod.rs:241-288 | Reading one delimiter at a time computes the request line, with its errors. |
| HttpConnection.ReadMessageFrom | wruster/src/http/mod.rs:73-76 | Headers are read and the body framed; the reader stands at the body's first byte. |
| HttpConnection.HandleMessage | wruster/src/lib.rs:592-621 | A message is read and a handler reads of its body what it likes. If it leaves the body, the rest is read for it, so the reader then stands exactly at the end of the message, or the fault of the stream is met in the body; if it takes the body, the reader stands somewhere in it and no fault of the body is met. |
| HttpConnection.OneRequest | wruster/src/lib.rs:592-621 | The same for a whole request; its start line and headers are those read, and the head ends where the lines end. |
| HttpConnection.OneResponse | wruster/src/http/mod.rs:690-716 | The same for a response and its user. |
| HttpConversation.NeverHangs | wruster/src/streams/cancellable_stream.rs:60-117 | Reading a request, with its body or up to it, from a stream that fails where nothing arrives ends for every input. |
| HttpConversation.Socket.Turn | wruster/src/lib.rs:576-633 | One turn, for every input, delivery, fault and outcome of writing, and for handlers that take the body or leave it: answered and kept open exactly when the request is read (its body complete, unless it is taken), the answer written and the request persistent; refused when the reader finds the request invalid; a panic of the thread where the reader panics; closed without an answer otherwise. What is left for the next turn is what the reads of the lines and of the body, in some sizes, have not taken off the stream. |
| HttpPersistence.PersistsExactly | wruster/src/lib.rs:661-678 | For every version and all headers: the connection is kept exactly when the first "Connection" value is not "close" in any case and the version is "HTTP/1.1" or "HTTP/2", or it is "HTTP/1.0" and that value is "keep-alive" in any case. |
| HttpPersistence.TurnAnswers | wruster/src/lib.rs:576-633 | For every turn: an answer that is written keeps the connection exactly then; an invalid request is refused; every other error, and a failing write, closes it without an answer. |
| HttpPersistence.CloseEndsTheConversation | wruster/src/lib.rs:545-678 | A concrete case: of two requests, the first of which says "Connection: close", only that is answered. |
| HttpPersistence.CloseRequestText | wruster/src/lib.rs:661-678 | The text of that request. |
| HttpConversation.Socket.Conversation | wruster/src/lib.rs:545-574 | With a peer that sends the next piece once it has been answered, for every script: each turn finds what the turn before left and the next piece, its outcome and what it leaves are those of `Turn`, and the conversation goes on exactly as long as turns keep the connection and answers can be flushed. |
| HttpConversation.EachOnItsOwn | wruster/src/lib.rs:545-574 | If no piece holds bytes behind a request, every turn's outcome is that of its own piece alone. |
| HttpConversation.AnsweredExactly | wruster/src/lib.rs:545-678 | If every piece is one whole request, exactly the requests up to and including the first that is not persistent, or whose answer cannot be flushed, are answered. |
| HttpConversation.NextRequestIsThereExactly | wruster/src/lib.rs:590-613 | For every request and all sizes of the reads of its body: what was sent behind it reaches the next turn exactly when the stream was read up to there and no further; for one without a body, exactly when a chunk ends where the request ends. |
| HttpConversation.LostWithinBuffer | wruster/src/lib.rs:590-613 | What a turn leaves is the end of what was sent behind its request, short of it by at most a buffer. |
| HttpConversation.PipelinedRequestIsLost | wruster/src/lib.rs:590-613 | If everything sent arrives in one chunk of at most a buffer, everything behind the head of a request is gone after its turn, with or without a body, taken or not. |
| HttpConversation.TakenBodyIsNextExactly | wruster/src/lib.rs:592-621 | A body that the handler takes and does not read is what the next turn finds, exactly when a chunk ends with the head. |
| HttpConversation.TakenPingIsAnswered | wruster/src/lib.rs:592-621 | A concrete case: if that body is a small request itself, the next turn answers it. |
| HttpConversation.NothingToTake | wruster/src/lib.rs:612-621 | Taking the body of a request that has none changes nothing. |
| HttpConversation.SecondPingIsLost | wruster/src/lib.rs:590-608 | A concrete case: of two small requests that arrive together the first is answered and the connection kept; the second is gone, and the next turn ends without an answer whatever fault the stream reports. |
| ObservedStreams.StepKeepsInv | wruster/src/streams/observable.rs:180-206 | Every track, clone, drop of a handle, removal, drain and shutdown keeps the invariant. |
| ObservedStreams.RunKeepsInv | wruster/src/streams/observable.rs:180-206 | It holds in every interleaving, and keys only grow. |
| ObservedStreams.ListIsExact | wruster/src/streams/observable.rs:37-51 | A tracked stream with a live handle that was not drained is listed; with no removal pending the list is exactly those streams. |
| ObservedStreams.KeysAndRemovals | wruster/src/streams/observable.rs:188-200 | Keys never repeat, and a removal takes at most its own entry, of a stream nobody holds. |
| StreamLives.DroppedIsRemoved | wruster/src/streams/observable.rs:37-51 | In every interleaving: once the last handle is dropped the removal is due until it has happened, and then the stream is not in the list; nothing is removed that somebody holds. |
| StreamLives.VisitedOnce | wruster/src/lib.rs:390-404 | The stop loop visits each stream it drained once. |
| StreamLives.HandlesCounted | wruster/src/streams/observable.rs:37-51 | In every run the handles held are those at first, plus the clones, minus the drops, whatever the accepting thread does. |
| StreamLives.TrackedIsForgotten | wruster/src/streams/observable.rs:180-206 | For every number of handles there is a run in which a stream is tracked, held by so many, dropped by all of them and removed from the list. |
| ObservedStreams.StopReachesAll | wruster/src/lib.rs:390-404 | When the stop loop is through, every drained stream still held has been shut down. |
| ObservedStreams.ObservedStreamList.Track | wruster/src/streams/observable.rs:180-192 | Whatever happens meanwhile, the new stream is listed under a key of its own. |
| ObservedStreams.ObservedStreamList.Dropped | wruster/src/streams/observable.rs:198-201 | A removal deletes exactly the entry of its key. |
| ObservedStreams.ObservedStreamList.DrainList | wruster/src/streams/observable.rs:203-206 | The list is emptied into a sequence that names each entry once, in any order. |
| ObservedStreams.ObservedStreamList.Stop | wruster/src/lib.rs:390-404 | With every other thread moving freely, after the stop loop every stream ever tracked that somebody still holds is shut down. |
| PolledWrites.CancellableStream.WriteInt | wruster/src/streams/cancellable_stream.rs:119-162 | For any poller and any short-writing socket: it takes the course that the waits and the socket determine and lasts as long as those waits. `Ok` only when exactly the whole buffer went out in order; otherwise a proper prefix did. It times out exactly when the last wait ended without an event on a stream that was not stopped, is not connected exactly when it did on one that was, and fails otherwise exactly when the poller failed or the socket broke at the first writable event. |
| PolledWrites.StepExactly | wruster/src/streams/cancellable_stream.rs:140-158 | Of the events of one wait only the first with key 1 that is writable matters, and what the socket does there decides: so many bytes, none if it would block, or a failure; without one nothing is sent. |
| PolledWrites.CourseExactly | wruster/src/streams/cancellable_stream.rs:119-162 | For every poller and socket: a write waits no more often than it takes for the socket to be offered everything, sends exactly what was accepted on the way, and its error is that of its last wait. |
| PolledWrites.WriteLasts | wruster/src/streams/cancellable_stream.rs:125-130 | If each wait keeps to a limit, a write lasts at most as many times the limit as it waits. |
| PolledWrites.WriteLastsThisLong | wruster/src/streams/cancellable_stream.rs:125-130 | That bound is reached: with the same findings and every wait at the limit the write takes the same course and lasts exactly that long. |
| PolledWrites.PunctualExactly | wruster/src/streams/cancellable_stream.rs:125-130 | Whatever times within the limit the waits take, a write that meets given findings lasts no longer than the limit, exactly when it waits once at most (or the limit is zero). |
| PolledWrites.AnyPollerExactly | wruster/src/streams/cancellable_stream.rs:119-162 | Every successful write of n bytes, over all pollers that keep to the limit, lasts no longer than the limit exactly when n or the limit is zero. |
| PolledWrites.ProgressingPollerExactly | wruster/src/streams/cancellable_stream.rs:119-162 | Where every wait finds room for a byte at least, a write of n bytes lasts at most n times the limit, and surely no longer than the limit exactly when n is at most one (or the limit is zero). |
| TimedStreams.Operation.Stop | wruster/src/streams/timeout_stream.rs:213-220 | The whole seconds of the call are added to the record. |
| TimedStreams.TimeoutStream.Write | wruster/src/streams/timeout_stream.rs:142-177 | Each call is granted the whole-second timeout minus what is recorded, and the time of all its waits is recorded; once the budget is spent every later call times out without touching the stream. |
| TimedStreams.TimeoutStream.Read | wruster/src/streams/timeout_stream.rs:98-136 | The same for reading, which waits once, with a budget of its own. |
| TimedStreams.TimeoutStream.SendLine | wruster/src/http/mod.rs:290-296 | A start line sent with one unchecked `write` still goes out whole. |
| TimedStreams.RecordLags | wruster/src/streams/timeout_stream.rs:213-220 | Real time is under the recorded seconds plus one second a call, for any calls. |
| TimedStreams.RecordIsTimeExactly | wruster/src/streams/timeout_stream.rs:213-220 | For any calls, the record equals real time exactly when each took whole seconds. |
| TimedStreams.HonouredCallsBounded | wruster/src/streams/timeout_stream.rs:200-220 | Calls that take at most so many times what they were granted take at most so many times the timeout's whole seconds together, and a second less a tick for each call but the last. |
| TimedStreams.WorstIsHonoured | wruster/src/streams/timeout_stream.rs:200-220 | That bound is reached by a run of any number of calls. |
| TimedStreams.BudgetBoundsTimeExactly | wruster/src/streams/timeout_stream.rs:185-221 | No run of k calls that take at most so many times their grants takes longer than the timeout exactly when so many times its whole seconds and (k - 1) seconds less a tick each fit into it; below one second no call is made. |
| TimedStreams.ReadsAreBoundedExactly | wruster/src/streams/timeout_stream.rs:98-136 | For calls that wait once: the budget bounds their real time exactly when there is one, or two and the timeout is a tick short of a whole second. |
| TimedStreams.WritesAreNotBounded | wruster/src/streams/timeout_stream.rs:142-177 | For calls that may wait more than once it never does, for any number of calls. |
| TimedStreams.WriteHonours | wruster/src/streams/timeout_stream.rs:142-177 | A write whose waits keep to its grant takes at most as many times the grant as it waits, and so extends a run of such calls. |
| TimedStreams.LongWrite | wruster/src/streams/cancellable_stream.rs:125-130 | A run of the stream: one successful write to a peer that takes a byte at a time, each wait within its grant, lasts the timeout's whole seconds as many times as the buffer has bytes, longer than the timeout. |
| TimedStreams.SlowWrites | wruster/src/streams/timeout_stream.rs:142-177 | A run of the stream: any number of writes of one wait and just under a second each are granted the full timeout, honour it, and leave the budget unspent. |
| TimedStreams.BudgetMeaning | wruster/src/streams/timeout_stream.rs:185-221 | For every state of an operation: real time is under the recorded seconds and one more a call; for calls that keep to their grants the record is within the timeout. |
| TimedStreams.GrantFalls | wruster/src/streams/timeout_stream.rs:185-221 | At first the timeout's whole seconds are granted, and every call's whole seconds are taken off what is granted next, down to nothing. |
| ConnectionPool.Pool.Get | wruster/src/http/client/connection_pool.rs:109-112 | The connection is taken out, and every other one kept. |
| ConnectionPool.Pool.Insert | wruster/src/http/client/connection_pool.rs:114-123 | Below the limit a map update; at the limit an entry of the oldest use is evicted and the newcomer not stored. At most 100 entries always. |
| ConnectionPool.NewcomerIsLost | wruster/src/http/client/connection_pool.rs:114-123 | A concrete case: a pool filled with a hundred connections loses the first when another is inserted, and does not hold the new one. |
| ConnectionPool.Pool.RemoveLru | wruster/src/http/client/connection_pool.rs:135-160 | For any iteration order, draining and refilling loses exactly one entry of minimal `last_used`, and there is always one to remove. |
| ConnectionPool.Pool.Drain | wruster/src/http/client/connection_pool.rs:128-133 | Every entry is handed out once, and the pool is empty. |
| ConnectionPool.Pool.Sweep | wruster/src/http/client/connection_pool.rs:95-107 | A sweep keeps exactly the entries whose last use is less than the timeout ago; a timeout of zero keeps none. |

## Left out

- PoolInvariant.StepKeepsInv: the loops of the worker threads appear as their atomic steps, not as methods of their own; only the submitting thread's code is also given in its own form.
- HttpConversation.NextRequestIsThereExactly: the sizes of the reads of a body are a parameter; those of `ensure_read` itself are left to the standard library.
- HttpConnection.OneRequest: a body that a handler takes is read by the handler only before it returns; one that it keeps and reads during later turns is not modelled.
- HttpConversation.Socket.Turn: the answer itself is not part of the model, only whether it could be written.
- TimedStreams.TimeoutStream.SendLine: stands for both start lines, request and status, which are sent in the same way.
- PolledWrites.CancellableStream.WriteInt: a call lasts as long as its waits; the work between them takes no time.
- TimedStreams.TimeoutStream.Write: `set_read_timeout` or `set_write_timeout` failing is not modelled; what a read of the stream below comes to is a parameter.
- PathNormalize.ParentRendered: `PathBuf::parent` is modelled for rooted buffers, the only ones `normalize` asks; `components`, `push` and `parent` follow their documentation on Unix.
- ObservedStreams.ListIsExact: a handle dropped when the list itself is gone (`Weak::upgrade` failing in `drop`) is not modelled.
- PoolSafety.ExactlyOnePlace: actions are taken to end without a panic; a panic in an action would lose its slot or its worker.
- Writes that fail in the middle of a message, and retries after `Interrupted`.
- `CancellableStream::read_int`, sockets, polling, TLS and certificates: the stream is what it delivers and accepts.
- `Body::write` for bodies over 2 MiB, whose last flush happens in the drop of a `BufWriter` that hides its error.
- Media types: whether a text parses as one is a parameter, and a parsed type is its text.
- A handler that assigns the public fields `content` or `content_length` of a body, rather than reading from it.
- Lock poisoning, the wrap-around of the 64-bit key counter, and machines whose `usize` is not 64 bits wide.
- The accept loop, busy replies, starting and stopping of the server, and connection set-up in the client.
- `Version`, and the reason phrases of the statuses as claims of their own.
- `serve_static`, `log_middleware`, `wrustatic` and `wrusdummy`: files, logging and command lines.
