# Dovecot auth, anvil and config: a verified model

A Dafny model of the state machines and data structures behind Dovecot's `auth`, `anvil` and `config`
daemons, with proofs of what they keep over every run.

| file | models |
|---|---|
| `WorkerPool.dfy` | the pool of auth worker processes (src/auth/auth-worker-server.c) |
| `LdapConnection.dfy` | the LDAP request pipeline (src/auth/db-ldap.c) |
| `AuthCache.dfy`, `CacheRuns.dfy`, `CacheKey.dfy` | the auth cache: list, hash and size; whole runs of it; its keys (src/auth/auth-cache.c) |
| `PassdbChain.dfy` | the passdb rule interpreter (src/auth/auth-request.c) |
| `AuthFields.dfy` | copy-on-write snapshots of request fields (src/auth/auth-fields.c) |
| `Penalty.dfy`, `ConnectLimit.dfy` | the anvil penalty tracker and connection limiter (src/anvil) |
| `ConfigInclude.dfy`, `ConfigFilter.dfy` | the include stack, nested filter sections and filter lookup (src/config) |
| `Encoding.dfy`, `TextFields.dfy`, `PasswordScheme.dfy` | base64, hex, comma fields, password schemes (src/lib, src/auth/password-scheme.c) |
| `ScramPassword.dfy`, `ScramMech.dfy` | SCRAM-SHA-1: stored entries and the exchange (src/auth/password-scheme-scram.c, src/auth/mech-scram-sha1.c) |

Objects whose fields the C code updates are classes; loops are loops; library hash tables are maps and
`aqueue`/`array` are sequences. The auth cache's doubly linked list is a real linked list. Time never goes back.
Callbacks are recorded and do not re-enter. Answers of the LDAP library (a function of how often it was asked), of
workers and of databases are parameters, and the results hold for all of them.

Where a property one would expect does not hold of the code, the code is kept, a member shows an input
for which it fails, and another proves exactly when it holds:

- A worker pool with waiting requests and no worker left is never served again (`Strand`, `Pool.Run`); in every other state the oldest waiting request can still leave (`Pool.Drain`).
- A malformed LDAP request behind pending ones makes the code drop the oldest pending request instead (`RejectKeepsPrefix`, `Misplacement`, `Connection.Reject`), which a new connection reaches after two searches (`RejectBehindPending`); the next close would then fail its assertion. A bind answered by a search entry also breaks the pipeline. A run is in order exactly when it met neither (`Connection.Run`).
- Requests that wait without an LDAP connection are watched by a timer exactly unless the last submission found the connection closed and untimed and TLS did not start (`Connection.Submit`, `Connection.Run`, `StrandedStart`); then nothing but another submission can end their wait (`Connection.StrandedWaits`).
- The cache accounting survives an insertion exactly when the entry fits the cache and 31 bits (`Cache.Insert`).
- Among tokenised queries, a cache key is sound exactly when no variable behind a `%{}` is left open by the ones before it, where a variable that is computed from another one is settled with it and `%h` always is (`KeySoundExactly`, `BrokenExample`, `FixedBehindBroken`).
- A login whose answers keep setting `login_user` has no bound on its lookups (`LoginLoop`); without that it has (`LoginTerminates`).
- A rollback restores the snapshot exactly unless fields were appended between it and the first change in place (`Fields.Rollback`, `AppendedFieldSurvives`).
- Lowering the penalty expiry under a running timer lets a record outlive its time exactly when both the present and the oldest record's new end come before the timer (`LoweredSetting`, `Tracker.OutlivesExactly`, `Tracker.SetExpireSecs`).
- `local` inside `local` does not restrict when the inner network is an IPv4-mapped IPv6 one with fewer than 96 bits, nor does `local_name` inside another `local_name` (`RestrictsExactly`, `EscapingExamples`). A comment in src/config/config-filter.h says `local_name` and `local_bits` are never both set; the parser accepts `local_name` inside `local`, and the model follows the parser.
- An include that names no including file is refused as recursive all the same exactly when it names a file that waits its turn or a file twice (`RefusedExactly`, `WaitingFileRefused`).
- A SCRAM client that asks for another authorization identity is always refused (`Exchange`, `FinalUnderstood`).

Two-byte and four-byte fixed-length passwords, for which the hexadecimal and base64 forms are equally long, are
recovered as well: the padding of the base64 form is no hexadecimal digit (`GuessedBase64`).

## Model

| member | source | states |
|---|---|---|
| WorkerPool.Pool.constructor | src/auth/auth-worker-server.c:491-501 | a new pool is valid and empty |
| WorkerPool.Pool.RequestSend | src/auth/auth-worker-server.c:89-135 | a request is sent if and only if it is younger than a minute; it then carries the number of requests ever sent on that connection, modulo 2^32, and the call timer runs; an older one is completed as aborted; nothing else changes |
| WorkerPool.Pool.SendOldest | src/auth/auth-worker-server.c:137-150 | the head of the queue leaves it, sent or aborted by age |
| WorkerPool.Pool.SendNext | src/auth/auth-worker-server.c:137-150 | exactly the over-aged prefix of the queue is aborted and the first fresh request is sent |
| WorkerPool.FreshExactly | src/auth/auth-worker-server.c:137-150 | the requests aborted for their age are exactly those at the front that waited for a minute or longer |
| WorkerPool.Pool.Create | src/auth/auth-worker-server.c:174-208 | a worker is created if and only if the throttle allows and the connection succeeds; it starts idle, with no request sent and no flag set |
| WorkerPool.Pool.Drop | src/auth/auth-worker-server.c:210-254 | the worker goes, its request is logged as lost with it, and nothing else is; the counters follow |
| WorkerPool.Pool.Destroy | src/auth/auth-worker-server.c:210-261 | the worker goes, its request gets one terminal callback, and a replacement is tried if and only if nobody is idle and a restart was asked for; it serves the queue in order |
| WorkerPool.Pool.RequestHandle | src/auth/auth-worker-server.c:280-311 | a final reply completes the request once; a partial one keeps it in flight and may pause the input |
| WorkerPool.Pool.MarkError | src/auth/auth-worker-server.c:313-319 | a first error counts one more failing worker |
| WorkerPool.Pool.WorkerError | src/auth/auth-worker-server.c:313-336 | the first failing worker sets the throttle to the pool size; a further one shrinks it below and goes; the throttle stays within bounds |
| WorkerPool.Pool.ShrinkPool | src/auth/auth-worker-server.c:328-335 | a further failing worker takes the throttle below the pool size and goes without a replacement |
| WorkerPool.MarkedAway | src/auth/auth-worker-server.c:313-336 | a further failing worker leaves what its line says: it goes without a replacement and the throttle shrinks |
| WorkerPool.Pool.WorkerSuccess | src/auth/auth-worker-server.c:338-356 | a recovering worker raises the throttle by one, or all the way when nobody else fails |
| WorkerPool.Pool.SetFlags | src/auth/auth-worker-server.c:379-387 | RESTART and SHUTDOWN set their flag and nothing else |
| WorkerPool.Pool.HandleReply | src/auth/auth-worker-server.c:397-417 | a reply reaches only the request holding its id; any other id destroys the worker |
| WorkerPool.Pool.AnswersExactly | src/auth/auth-worker-server.c:397-417 | a reply answers the request in flight if and only if its id is the number of requests ever sent on that connection, modulo 2^32 |
| WorkerPool.Pool.StaleReply | src/auth/auth-worker-server.c:397-417 | a repeated reply to any earlier request, fewer than 2^32 requests ago, answers nothing and costs the worker |
| WorkerPool.RepeatedReply | src/auth/auth-worker-server.c:397-417 | a run in which a reply comes twice: the first request is replied to, the worker goes, and the next request is lost with it |
| WorkerPool.ReplyMeans | src/auth/auth-worker-server.c:280-311 | a final reply leaves the worker idle and its request replied to; a partial one keeps it in flight and stops the reading exactly if the callback says so |
| WorkerPool.QuietLine | src/auth/auth-worker-server.c:379-403 | RESTART and SHUTDOWN set their flag and nothing else, and a line that is not understood changes nothing |
| WorkerPool.SuccessLine | src/auth/auth-worker-server.c:338-356 | a success of a failing worker raises the throttle by one, or to the maximum when it was the only one failing |
| WorkerPool.Pool.HandleLine | src/auth/auth-worker-server.c:379-418 | workers, queue, log, failing count and throttle after each kind of line, and whether reading goes on |
| WorkerPool.LineKeeps | src/auth/auth-worker-server.c:379-418 | a line changes no other worker; this one goes with its request failed, or is as the line leaves it with its reply delivered |
| WorkerPool.Pool.ReadLines | src/auth/auth-worker-server.c:379-418 | the pool after a read is the fold of its lines, up to one that pauses the input or destroys the worker |
| WorkerPool.Pool.FinishInput | src/auth/auth-worker-server.c:420-427 | an idle worker is retired, with its replacement, if it asked for that, and otherwise gets the oldest fresh request |
| WorkerPool.FinishMeans | src/auth/auth-worker-server.c:420-427 | an idle worker that asked for a restart goes and is replaced exactly if nobody else is idle, there is room and the new one starts; one that asked for a shutdown goes; any other serves the queue |
| WorkerPool.Pool.Input | src/auth/auth-worker-server.c:358-428 | workers, queue, log and throttle after a whole read; the pool stays valid and the other workers are left alone |
| WorkerPool.Pool.Disconnected | src/auth/auth-worker-server.c:363-377 | a dead worker's request is completed as lost, and a replacement serves the queue |
| WorkerPool.Pool.IdleTimeout | src/auth/auth-worker-server.c:72-80 | its assertion holds; the worker goes only if another one is idle |
| WorkerPool.Pool.CallTimeout | src/auth/auth-worker-server.c:82-87 | its assertion holds; the request is completed as lost, and a replacement serves the queue |
| WorkerPool.Pool.ResumeInput | src/auth/auth-worker-server.c:474-489 | resuming keeps the pool valid and changes only the timers of that worker |
| WorkerPool.Pool.ResumeFires | src/auth/auth-worker-server.c:430-437 | reading resumes, with exactly the outcome of a read |
| WorkerPool.Pool.FindFree | src/auth/auth-worker-server.c:263-278 | finds an idle worker if and only if the idle count is positive; the unreachable end is not reached |
| WorkerPool.Pool.Submit | src/auth/auth-worker-server.c:439-472 | queued if and only if others wait or no worker can be had; never sent past the queue; sent to an idle worker or a new one, under the next id of that connection |
| WorkerPool.Pool.Step | src/auth/auth-worker-server.c:60-489 | what each event does to workers, queue and log; every event keeps the pool valid: counts, bounds, ids, FIFO order, conservation of requests, and no idle worker while requests wait |
| WorkerPool.Pool.Run | src/auth/auth-worker-server.c:60-489 | over every sequence of events the pool stays valid, every submission is taken and is in exactly one place, completions stay, and a stranded queue stays stranded forever |
| WorkerPool.Pool.Drain | src/auth/auth-worker-server.c:210-261 | unless stranded, the oldest waiting request can still leave the queue |
| WorkerPool.Overload | src/auth/auth-worker-server.c:439-472 | a reachable state with one worker, the first request in flight and the second one waiting |
| WorkerPool.Strand | src/auth/auth-worker-server.c:210-261 | a stranded pool is reachable |
| WorkerPool.Complete | src/auth/auth-worker-server.c:280-311 | completing a request in flight keeps every request in exactly one place |
| WorkerPool.Dispatch | src/auth/auth-worker-server.c:89-135 | sending a queued request keeps every request in exactly one place |
| WorkerPool.DropBusy | src/auth/auth-worker-server.c:210-261 | losing a busy worker keeps every request in exactly one place |
| WorkerPool.DestroyedKeeps | src/auth/auth-worker-server.c:210-261 | losing a worker changes no other worker |
| WorkerPool.ServedKeeps | src/auth/auth-worker-server.c:137-150 | serving the queue on one worker changes no other worker |
| WorkerPool.EnterFifo | src/auth/auth-worker-server.c:439-472 | a new request keeps the queue the last submissions in order |
| WorkerPool.KeepFifo | src/auth/auth-worker-server.c:137-150 | completing a request that is not queued keeps the queue the last submissions in order |
| LdapConnection.Connection.constructor | src/auth/db-ldap.c:1774-1863 | a new connection is in order |
| LdapConnection.Connection.Close | src/auth/db-ldap.c:1264-1303 | no request leaves the queue, all are unsent again, and a timer watches them |
| LdapConnection.Connection.Bind | src/auth/db-ldap.c:997-1024 | a bind as the default dn is outstanding alone, or the connection is closed |
| LdapConnection.Connection.Connect | src/auth/db-ldap.c:1144-1221 | the assertion on pending requests holds; an open connection is left alone; a failed start of TLS leaves every timer but the delayed connect, which goes |
| LdapConnection.Connection.Reconnect | src/auth/db-ldap.c:250-255 | a reconnect loses no request and reorders none |
| LdapConnection.Connection.SendRequest | src/auth/db-ldap.c:297-350 | the first unsent request is sent under a new id, or nothing changes, or everything is unsent again |
| LdapConnection.Connection.MarkSent | src/auth/db-ldap.c:400-413 | the first unsent request joins the sent prefix under a new id |
| LdapConnection.Connection.Reject | src/auth/db-ldap.c:417-422 | the oldest entry goes for a rejected one: in order if and only if nothing is pending, and otherwise the oldest request vanishes without a callback while the rejected one stays queued after its callback and counts as pending though unsent, against the assertion of the next close |
| LdapConnection.Connection.Transmit | src/auth/db-ldap.c:400-423 | in order afterwards if and only if no malformed request was met behind a pending one |
| LdapConnection.Connection.QueueNext | src/auth/db-ldap.c:352-423 | a bind is sent only alone, no more than the maximum is pending, in order afterwards exactly unless a malformed request was met behind a pending one; on a closed connection nothing is sent, and waiting requests stay watched exactly unless TLS does not start and the disconnect timer is not running |
| LdapConnection.DecideMeans | src/auth/db-ldap.c:352-413 | exactly when the next request is sent, is rejected or needs a bind as default dn first, by state, kind, pending count and the answer of the library |
| LdapConnection.Connection.SendAll | src/auth/db-ldap.c:465-486 | the sending loop ends with nothing left that could be sent, in order exactly if it met no anomaly |
| LdapConnection.Connection.ExhaustedExactly | src/auth/db-ldap.c:352-399 | nothing is left to send if and only if the next request has to wait whatever the library answers |
| LdapConnection.Connection.AbortOldest | src/auth/db-ldap.c:512-534 | the pending count follows the head of the queue |
| LdapConnection.Connection.AbortRequests | src/auth/db-ldap.c:503-537 | exactly the longest old enough prefix, up to the given number, is failed |
| LdapConnection.AgedExactly | src/auth/db-ldap.c:512-534 | the requests aborted for their age are those at the front that are old, before the first younger one |
| LdapConnection.Connection.Submit | src/auth/db-ldap.c:425-463 | the request joins the end of the queue; which of waiting, rebinding, sending, losing the connection and rejecting follows; in order afterwards exactly unless one was rejected behind a pending one; unwatched afterwards exactly if the connection was closed and untimed and TLS does not start |
| LdapConnection.Connection.CheckLimits | src/auth/db-ldap.c:425-446 | a connection whose oldest request waited for too long is opened again and keeps every request; any other is left alone |
| LdapConnection.Connection.Dispatch | src/auth/db-ldap.c:459-462 | queueing and trying to send, once the connection does not hang |
| LdapConnection.Connection.Enqueue | src/auth/db-ldap.c:456-460 | a new request is queued last and unsent, and the pipeline stays in order |
| LdapConnection.Connection.FindRequest | src/auth/db-ldap.c:539-561 | finds the pending request of an id if there is one, though it stops at the first unsent one |
| LdapConnection.Connection.DefaultBindFinished | src/auth/db-ldap.c:488-501 | its assertion holds; a failed bind closes the connection and keeps every request; after a good one all that can be sent is sent |
| LdapConnection.Connection.Settle | src/auth/db-ldap.c:744-818 | a reply finishes its search, with a result or without, or keeps it in place under the same or a new id |
| LdapConnection.Connection.BindReplied | src/auth/db-ldap.c:738-765 | a bind reply finishes the only pending request; an entry instead of it breaks the pipeline |
| LdapConnection.Connection.HandleRequestResult | src/auth/db-ldap.c:728-834 | which request ends, which stay, which earlier ones are failed as lost, and exactly when the pipeline breaks |
| LdapConnection.Connection.Deliver | src/auth/db-ldap.c:883-893 | the same for the request that holds the id of the reply, which is the only one |
| LdapConnection.ReplyMeans | src/auth/db-ldap.c:766-834 | the last reply to a search takes it out and finishes it, with a result unless the search failed; any other keeps it queued and unfinished; of the others exactly the old ones ahead of it are failed, after a callback alone |
| LdapConnection.UpdatedMeans | src/auth/db-ldap.c:787-812 | a search that stays changes its id with a follow-up query alone, is marked failed with a second entry alone, and keeps a saved entry with a reference alone |
| LdapConnection.LostAreOld | src/auth/db-ldap.c:827-832 | the requests failed ahead of a reply are exactly those at the front that waited for a minute, if the reply makes a callback, and none otherwise |
| LdapConnection.Connection.FinishSearch | src/auth/db-ldap.c:813-824 | the search leaves the queue and the pending count and is finished, with a result or without; the others keep their places |
| LdapConnection.Connection.HandleResult | src/auth/db-ldap.c:869-894 | what a reply does is stated over the queue: an unknown id changes nothing; the last reply finishes its request, with a result unless the search failed; any other keeps it; nothing but old requests ahead of it goes; in order exactly without an anomaly |
| LdapConnection.Connection.DisconnectTimeout | src/auth/db-ldap.c:1252-1262 | exactly the old requests at the front are failed; the rest stay watched, and without any the timer stops |
| LdapConnection.Connection.Handle | src/auth/db-ldap.c:896-995 | what each event does to the queue, the finished requests and the state; a reply ends the request that holds its id; every event leaves the connection in order exactly without an anomaly; only a submission decides whether waiting requests are unwatched; timeouts and failed reads lose no request |
| LdapConnection.Connection.Run | src/auth/db-ldap.c:250-1303 | over every run: sent prefix, distinct ids, bind exclusion, pending bound, history and timers hold exactly if there was no anomaly, and then every submission of the run is queued or finished and every request that had its last reply is finished; no finished request is taken back; waiting requests are watched exactly unless the last submission was stranded, which needs TLS that does not start; a stranded connection keeps its queue, without a callback, until another submission |
| LdapConnection.Connection.StrandedWaits | src/auth/db-ldap.c:1161-1181 | to a stranded connection nothing can happen but a submission or the passing of time |
| LdapConnection.StrandedStart | src/auth/db-ldap.c:1144-1181 | a new connection on which TLS does not start: its first request is queued and no timer runs |
| LdapConnection.RejectKeepsPrefix | src/auth/db-ldap.c:417-422 | deleting the oldest entry for a rejected one keeps the sent prefix if and only if nothing is pending |
| LdapConnection.Misplacement | src/auth/db-ldap.c:417-422 | whatever is queued, the rejection loses the oldest pending request and keeps the finished one, unsent, among the pending |
| LdapConnection.RejectBehindPending | src/auth/db-ldap.c:417-422 | a new connection that binds, sends one search and has the next one rejected: the first is lost without a callback, the second one is queued after its callback and counts as pending though unsent |
| LdapConnection.FinishOne | src/auth/db-ldap.c:815-818 | finishing one request keeps every submitted request queued in order or finished |
| LdapConnection.ReplacePending | src/auth/db-ldap.c:687-726 | a follow-up query under a new id keeps the sent prefix |
| AuthCache.Cache.constructor | src/auth/auth-cache.c:227-245 | an empty cache is valid |
| AuthCache.Cache.Unlink | src/auth/auth-cache.c:146-162 | the list loses that node and stays doubly linked |
| AuthCache.Cache.LinkHead | src/auth/auth-cache.c:164-176 | the list gains that node at its head and stays doubly linked |
| AuthCache.Cache.Destroy | src/auth/auth-cache.c:178-188 | list, hash and size lose exactly that entry |
| AuthCache.Cache.Clear | src/auth/auth-cache.c:260-268 | everything goes, all space is free, and the count is the number of entries |
| AuthCache.Cache.Lookup | src/auth/auth-cache.c:357-399 | the value under the key; expired if and only if it is older than the TTL, for a negative entry the negative TTL, which is also reported on its own; an unexpired hit becomes the most recent entry, an expired one stays in its place |
| AuthCache.Cache.MoveToHead | src/auth/auth-cache.c:385-391 | the entry becomes the most recent one and the others keep their order |
| AuthCache.Cache.MakeRoom | src/auth/auth-cache.c:430-432 | the oldest entries go until there is room or nothing is left |
| AuthCache.Cache.RemoveKey | src/auth/auth-cache.c:463-474 | exactly the entry of the key goes |
| AuthCache.Cache.AddNode | src/auth/auth-cache.c:440-460 | the accounting survives if and only if the entry fits the cache and 31 bits |
| AuthCache.Cache.Insert | src/auth/auth-cache.c:401-461 | the abstract insertion, with the size of both strings, their NULs and the node; or nothing for a negative entry without a TTL; valid afterwards if and only if that size fits the cache and 31 bits |
| AuthCache.Cache.VisitForUsers | src/auth/auth-cache.c:320-326 | one node of the scan is destroyed exactly if it belongs to a given user |
| AuthCache.Cache.ClearUsers | src/auth/auth-cache.c:314-328 | exactly the entries of the given users go, and they are counted |
| AuthCache.NodeIsUser | src/auth/auth-cache.c:270-300 | the in-place key scan finds the user field of the key |
| AuthCache.IsOneOf | src/auth/auth-cache.c:302-312 | true exactly for a key of one of the users |
| AuthCache.LookupAgrees | src/auth/auth-cache.c:370-375 | the hash finds what the list holds |
| CacheRuns.Run | src/auth/auth-cache.c:357-474 | over every run the entries never exceed the maximum and no key is there twice |
| CacheRuns.ApplyMeans | src/auth/auth-cache.c:260-474 | what each operation leaves, entry by entry: an insertion ends up last, a removal or flush takes exactly the entries it names |
| CacheRuns.GetMeans | src/auth/auth-cache.c:376-391 | a lookup of an entry that is not older than its TTL moves it to the end; any other lookup changes nothing |
| CacheRuns.EvictsShortest | src/auth/auth-cache.c:430-432 | an insertion evicts the shortest oldest prefix that makes room |
| CacheRuns.InsertKeeps | src/auth/auth-cache.c:401-461 | an insertion keeps the bound, unique keys and the recency order |
| CacheRuns.MoveKeeps | src/auth/auth-cache.c:385-391 | a hit keeps the total and the order of the others |
| CacheRuns.ApplyFinds | src/auth/auth-cache.c:357-474 | after one operation a lookup finds exactly what the operation left under the key, unless the operation evicted it |
| CacheRuns.FindsLastInserted | src/auth/auth-cache.c:357-474 | after every run a lookup finds the last insertion under its key not removed or flushed since, if and only if no later insertion evicted it |
| CacheRuns.OrderedByLastTouch | src/auth/auth-cache.c:357-461 | after every run the list is ordered by last insertion or unexpired hit |
| CacheRuns.Perform | src/auth/auth-cache.c:357-474 | one operation on the linked list and the hash is one step of the abstract run |
| CacheRuns.RunOn | src/auth/auth-cache.c:357-474 | after every run the linked list, hash and accounting are valid and hold what the abstract run says |
| CacheRuns.LookupAfter | src/auth/auth-cache.c:357-399 | a lookup in the linked cache after any run returns the value last inserted, unless it was removed or evicted, and reports it expired exactly if more than its TTL has passed since that insertion; an unexpired hit is then the most recent entry |
| CacheKey.ParseKey | src/auth/auth-cache.c:82-144 | the key lists each seen variable once, user and domain merged, then the others |
| CacheKey.KeyMeans | src/auth/auth-cache.c:82-144 | a variable is in the key if and only if it occurs before anything broken, with the whole user for its two parts; known ones come first, in the order of the table |
| CacheKey.Scan | src/auth/auth-cache.c:92-115 | the marked variables are those before a broken one |
| CacheKey.MergeUser | src/auth/auth-cache.c:117-123 | user name and domain become the whole user |
| CacheKey.EscapeInjective | src/auth/auth-cache.c:330-337 | different values stay different when tab-escaped |
| CacheKey.EscapeMeans | src/auth/auth-cache.c:330-337 | tabs, returns, line ends and the escape character are written as two characters, and no others |
| CacheKey.JoinInjective | src/auth/auth-cache.c:339-355 | tab-joined fields determine the fields |
| CacheKey.KeySound | src/auth/auth-cache.c:82-144 | equal expanded keys of two requests mean the same database and equal query expansions, whatever escaping and modifiers the query applies |
| CacheKey.KeyNamesDb | src/auth/auth-cache.c:345-349 | a key tells userdb from passdb, and their ids |
| CacheKey.KeyBegins | src/auth/auth-cache.c:345-349 | what an expanded key begins with: `U` or `P`, the id, and the escaped master user behind a plus sign if there is one |
| CacheKey.KeySoundExactly | src/auth/auth-cache.c:82-144 | a query's key is sound if and only if the key settles all its variables, directly or through the one they are computed from |
| CacheKey.PartsFollow | src/auth/auth-request.c:2112-2186 | the domain parts and the login and original user parts are settled by the name they are computed from |
| CacheKey.WitnessesAgree | src/auth/auth-cache.c:82-144 | for every variable that is left open two possible requests differ in it and agree in the key |
| CacheKey.UnbrokenCovered | src/auth/auth-cache.c:82-144 | a query without a broken variable is always sound |
| CacheKey.BrokenExample | src/auth/auth-cache.c:98-102 | `%{}%u` gives all users one key |
| CacheKey.FixedBehindBroken | src/auth/auth-cache.c:98-102 | a query with a broken variable is sound if it uses only the home and, behind `%u`, what is computed from the user |
| CacheKey.FixedExamples | src/auth/auth-cache.c:98-102 | `%{}%h` and `%u%{}%{domain_first}` are sound |
| CacheKey.FlushHitsUser | src/auth/auth-cache.c:270-300 | flushing a user hits a key with the whole user exactly if it is that user's |
| PassdbChain.Request.Judge | src/auth/auth-request.c:538-573 | deny databases, disabled and expired users end the login; the rest is judged by the answer |
| PassdbChain.Request.ApplyRule | src/auth/auth-request.c:575-615 | the rule sets the success flag and whether to go on |
| PassdbChain.Request.FindNext | src/auth/auth-request.c:617-628 | the next database that is not skipped, from the head of the passdbs after a master login |
| PassdbChain.Request.HandleCallback | src/auth/auth-request.c:530-673 | one callback is one step of the chain function |
| PassdbChain.Request.PlainVerifyCallback | src/auth/mech-plain-common.c:6-20 | success needs result OK, the success flag and no failure |
| PassdbChain.Request.Answer | src/auth/auth-request.c:675-718 | one lookup and its callbacks |
| PassdbChain.Request.VerifyPlain | src/auth/auth-request.c:675-802 | the callback machine ends as the chain function says |
| PassdbChain.EndsAsFold | src/auth/auth-request.c:530-673 | the verdict is one fold: the last OK or FAIL rule among the visited databases, and an internal failure passed on the way |
| PassdbChain.LoginExactly | src/auth/auth-request.c:122-145 | a login succeeds if and only if the last decision is positive and no visited database ended it |
| PassdbChain.LoginByRules | src/auth/auth-request.c:530-673 | a login succeeds if and only if no visited database bars the user and the last one whose result rule says ok or fail says ok; and exactly when it ends in an internal failure |
| PassdbChain.VisitMeans | src/auth/auth-request.c:538-615 | what the rule a database has for its answer decides, and when it goes on |
| PassdbChain.FollowingExactly | src/auth/auth-request.c:617-628 | the next database is the first that is not to be skipped, once the user is authenticated or until then, of the rest of the list or of all after a master login |
| PassdbChain.StopsExactly | src/auth/auth-request.c:647-662 | the chain stops exactly if the user is barred, the rule does not continue, or no database is left |
| PassdbChain.SkipsByHistory | src/auth/auth-request.c:496-513 | over every run, after the first database one with `skip = authenticated` is asked only if no earlier one accepted the password, and one with `skip = unauthenticated` only if some earlier one did |
| PassdbChain.EarlierVisitsWentOn | src/auth/auth-request.c:647-662 | only the last visited database can have ended the login |
| PassdbChain.Bounded | src/auth/auth-request.c:617-662 | at most as many lookups as there are databases, plus all passdbs again per restart, are made |
| PassdbChain.LoginTerminates | src/auth/auth-request.c:481-494 | without `login_user` in the answers a login is over after as many lookups as there are masterdbs and passdbs together |
| PassdbChain.LoginLoop | src/auth/auth-request.c:617-628 | with it there is no bound |
| AuthFields.Fields.constructor | src/auth/auth-fields.c:18-25 | no fields and no snapshot |
| AuthFields.Fields.FindIdx | src/auth/auth-fields.c:37-55 | the field of the key, or none has it |
| AuthFields.Fields.SnapshotPreserve | src/auth/auth-fields.c:27-35 | a copy exists before any change in place |
| AuthFields.Fields.Add | src/auth/auth-fields.c:57-80 | the value is replaced in place, or the field is appended; an empty value is stored as none |
| AuthFields.Fields.Remove | src/auth/auth-fields.c:82-90 | the field goes and the others keep their order |
| AuthFields.Fields.Reset | src/auth/auth-fields.c:109-115 | no fields are left and the snapshot is kept |
| AuthFields.Fields.Snapshot | src/auth/auth-fields.c:189-206 | the current list becomes what a rollback aims at; the changed flags are cleared |
| AuthFields.Fields.Rollback | src/auth/auth-fields.c:208-218 | the list as of the snapshot or of the first change in place; the snapshot exactly if nothing was appended in between; the deletion is in range |
| AuthFields.Apply | src/auth/auth-fields.c:57-218 | one operation does what it does with plain copies, unless it is an inexact rollback |
| AuthFields.StepMeans | src/auth/auth-fields.c:57-218 | what each operation leaves of the keys, values and snapshot |
| AuthFields.SnapshotRestores | src/auth/auth-fields.c:189-218 | whatever changes follow a snapshot, a rollback brings the fields back |
| AuthFields.Run | src/auth/auth-fields.c:57-218 | every run without an inexact rollback ends as with plain copies |
| AuthFields.AppendedFieldSurvives | src/auth/auth-fields.c:189-218 | an appended field that survives a rollback |
| Penalty.Checksums.Bump | src/anvil/penalty.c:91-116 | a remembered checksum moves to the front |
| Penalty.Checksums.AddChecksum | src/anvil/penalty.c:118-145 | a new one is put in front, across the switch from two slots to ten |
| Penalty.Checksums.See | src/anvil/penalty.c:207-215 | the slots hold the first ten of the move-to-front list of all checksums seen |
| Penalty.Checksums.Has | src/anvil/penalty.c:233-257 | membership among those ten, in both representations |
| Penalty.Prepend | src/anvil/penalty.c:118-145 | putting a checksum in front shifts the remembered ones by one and keeps them distinct |
| Penalty.IncreasedEncodes | src/anvil/penalty.c:204-223 | the time of the last update survives the 15-bit clamp |
| Penalty.MovedToEnd | src/anvil/penalty.c:200-225 | the list stays ordered by last update |
| Penalty.Tracker.Inc | src/anvil/penalty.c:186-231 | the record of the identity becomes what the abstract penalty increase says; list, hash and timer stay in order |
| Penalty.IncedMeans | src/anvil/penalty.c:186-223 | a checksum that is zero or not among the last ten sets the penalty to the value, in 16 bits, and restarts its time; a repeated one sets one less and keeps the time, or what 15 bits can say of it; other identities are untouched |
| Penalty.MoveToFrontMeans | src/anvil/penalty.c:91-145 | a checksum goes to the front once and the others keep their order |
| Penalty.TopMeans | src/anvil/penalty.c:233-257 | the remembered checksums are the ten seen last |
| Penalty.Tracker.Store | src/anvil/penalty.c:204-231 | the updated record goes to the end of the list, and the timer runs |
| Penalty.Tracker.Expire | src/anvil/penalty.c:170-183 | exactly the expired records go |
| Penalty.Tracker.Timeout | src/anvil/penalty.c:162-184 | a record stays if and only if its last update is younger than the setting, and the timer is set for the next one |
| Penalty.Tracker.NoneExpired | src/anvil/penalty.c:162-184 | while the timer is not due no expired record is held |
| Penalty.Tracker.OutlivesExactly | src/anvil/penalty.c:162-184 | in every state, whether an expired record can still be held before the timer fires |
| Penalty.Tracker.SetExpireSecs | src/anvil/penalty.c:86-89 | a record outlives the new setting if and only if its end and the present come before the timer; raising never hurts |
| Penalty.LoweredSetting | src/anvil/penalty.c:86-89 | lowering lets an expired record live on |
| Penalty.Tracker.Get | src/anvil/penalty.c:147-160 | the penalty and its time, or zeros |
| Penalty.Tracker.HasChecksum | src/anvil/penalty.c:233-257 | exactly the last ten checksums of that identity |
| Penalty.Tracker.Run | src/anvil/penalty.c:162-231 | over every run the tracker holds what its events say and its timer is in time |
| Penalty.ReplayMeans | src/anvil/penalty.c:162-231 | what each event adds to a run: an increase updates its identity now, the timer keeps a record if and only if it is younger than the setting, and time changes nothing else |
| ConnectLimit.Limiter.Lookup | src/anvil/connect-limit.c:60-67 | the number of open connections, which is the sum of the per-process counts |
| ConnectLimit.Limiter.Connect | src/anvil/connect-limit.c:69-98 | one more open connection; a new identity gets a key of its own |
| ConnectLimit.Limiter.IdentHashUnref | src/anvil/connect-limit.c:100-118 | the panic is unreachable; a key is freed only with its last user |
| ConnectLimit.Limiter.Disconnect | src/anvil/connect-limit.c:120-141 | exactly one connection of that pair goes; an unknown pair changes nothing |
| ConnectLimit.Limiter.DropPair | src/anvil/connect-limit.c:153-156 | all references of a pair are dropped |
| ConnectLimit.Limiter.DisconnectPid | src/anvil/connect-limit.c:143-160 | exactly the connections of that process go |
| ConnectLimit.Limiter.Run | src/anvil/connect-limit.c:60-160 | over every run the tables stand for the open connections, without zero entries or dangling keys, and every identity has a key of its own |
| ConnectLimit.ReplayMeans | src/anvil/connect-limit.c:69-160 | what each command of a run does to the number of open connections of every identity and process |
| ConnectLimit.CountIsSum | src/anvil/connect-limit.c:10-22 | each identity's count is the sum over its processes |
| ConnectLimit.Unreferenced | src/anvil/connect-limit.c:100-118 | dropping one reference keeps all counts right |
| ConnectLimit.KeysStayLive | src/anvil/connect-limit.c:100-118 | no remaining pair loses its key |
| ConnectLimit.OfOthersKeeps | src/anvil/connect-limit.c:143-160 | other processes keep every connection |
| ConfigInclude.Parser.AddInclude | src/config/config-parser.c:465-497 | a path on the stack is refused, a missing file is an error or ignored, any other file is pushed |
| ConfigInclude.Parser.AddIncludes | src/config/config-parser.c:526-535 | the globbed files are pushed from the last one on, up to an error |
| ConfigInclude.Parser.IncludeLine | src/config/config-parser.c:499-543 | an include line continues as its expansion says |
| ConfigInclude.Parser.ReadLine | src/config/config-parser.c:961-982 | each line read lowers the measure and keeps what remains to be done |
| ConfigInclude.Parser.ReadAll | src/config/config-parser.c:960-987 | reading ends with the expansion of the whole stack |
| ConfigInclude.Parser.ParseFile | src/config/config-parser.c:900-993 | on every finite map of files parsing ends, within a stated number of lines, with the nested expansion's lines and error; without an error the lines are those of textual inclusion, and with one they end where it says |
| ConfigInclude.ExpandContents | src/config/config-parser.c:499-543 | a parse without error applies the lines with every include replaced by the contents of its files in the order of the list, although they are pushed from its end |
| ConfigInclude.ExpandStops | src/config/config-parser.c:960-987 | the parse stops at the first line that is rejected or cannot be included, and the file and line it reports are that line |
| ConfigInclude.PushFails | src/config/config-parser.c:465-497 | a failing include names the file that is recursive, or missing while errors count |
| ConfigInclude.StackDepth | src/config/config-parser.c:471-478 | a stack without repeated paths is no deeper than there are files |
| ConfigInclude.PushExactly | src/config/config-parser.c:465-536 | an include works if and only if it names nothing still being read, no file twice and nothing missing that matters |
| ConfigInclude.PushRefuses | src/config/config-parser.c:471-478 | an include is refused as recursive if and only if some file of it is on the stack or comes twice, and those behind it fit |
| ConfigInclude.RefusedExactly | src/config/config-parser.c:465-536 | an include that names no including file is refused as recursive if and only if it names a waiting file or a file twice |
| ConfigInclude.WaitingFileRefused | src/config/config-parser.c:465-543 | an example parse: the second of two globbed files, included by the first, is refused as recursive |
| ConfigInclude.FinishPushed | src/config/config-parser.c:984-987 | popping files one by one is the nested expansion |
| ConfigInclude.WeightPushed | src/config/config-parser.c:489-494 | one line weighs more than everything pushed for it |
| ConfigFilter.InNetwork | src/lib/net.c:1082-1140 | an address lies in a network exactly if their first bits agree, with IPv4-mapped addresses looked through |
| ConfigFilter.LooksThrough | src/lib/net.c:1082-1140 | an IPv6 address lies in an IPv4 network if and only if it is an IPv4-mapped one whose IPv4 form does, and in an IPv6 network only if it is not IPv4-mapped |
| ConfigFilter.DisguisedAlike | src/lib/net.c:1082-1140 | an IPv4-mapped address lies in exactly the networks of its IPv4 form |
| ConfigFilter.SamePrefix | src/lib/net.c:1118-1139 | words, bytes and bits together compare exactly the first bits |
| ConfigFilter.Sections.FindParser | src/config/config-parser.c:207-220 | finds an equal filter if there is one |
| ConfigFilter.Sections.Begin | src/config/config-parser.c:853-860 | the new filter narrows the current one, equal filters share a parser, all parsers stay distinct |
| ConfigFilter.Sections.End | src/config/config-parser.c:884-891 | back to the enclosing section; an error at the top |
| ConfigFilter.InsideBoth | src/config/config-parser.c:287-293 | address prefixes are transitive unless the inner network leaks |
| ConfigFilter.OutsideOuter | src/lib/net.c:1090-1094 | an address in a leaking inner network and not in the outer one |
| ConfigFilter.Inside | src/config/config-parser.c:269-322 | matching an accepted section that neither leaks nor renames implies matching its parent |
| ConfigFilter.MoreSpecific | src/config/config-parser.c:269-322 | an accepted section compares as at least as specific as its parent, and its parent counts as a superset of it |
| ConfigFilter.NarrowExactly | src/config/config-parser.c:269-322 | exactly which sections are accepted inside a section, and what each changes of its filter |
| ConfigFilter.RestrictsExactly | src/config/config-parser.c:269-322 | matching an accepted section implies matching its parent if and only if it does not leak and does not rename |
| ConfigFilter.EscapingExamples | src/config/config-parser.c:269-322 | two accepted sections that do not restrict their parent |
| ConfigFilter.Enclosed | src/config/config-filter.c:15-67 | a request that matches a section matches every section around it |
| ConfigFilter.InnerFirst | src/config/config-filter.c:118-146 | an inner section never compares as less specific, and overrides without conflict |
| ConfigFilter.NoConflict | src/config/config-filter.c:266-283 | merging the sections of one chain in order reports no conflict |
| ConfigFilter.CmpOrder | src/config/config-filter.c:118-153 | the merge order is a total preorder |
| ConfigFilter.MatchesRest | src/config/config-filter.c:33-58 | the match of names and networks |
| ConfigFilter.FindAll | src/config/config-filter.c:187-231 | exactly the matching filters, most specific first, the usage flags, and for a request without a service the other services with settings of their own; every filter found agrees with the request in service, `!` service, names and networks, and of two that name and exclude the same service exactly one is found |
| ConfigFilter.FoundByService | src/config/config-filter.c:15-31 | the filters found agree with the request in service, `!` service, names and networks; of two that name and exclude the same service exactly one is found |
| ConfigFilter.CmpExactly | src/config/config-filter.c:118-146 | a local name, then more local bits, then more remote bits, then a service make a filter come first |
| ConfigFilter.OtherServicesExactly | src/config/config-filter.c:155-206 | that list names exactly the services of filters for other services with changed settings, each once |
| ConfigFilter.EnclosingSettings | src/config/config-filter.c:187-231 | a request that gets a section's settings gets those around it too, merged later |
| Encoding.Base64Encode | src/lib/base64.c:46-79 | the loop computes the RFC 4648 encoding |
| Encoding.Base64Decode | src/lib/base64.c:84-150 | the loop computes the recursive decoding, with the bytes before an error |
| Encoding.Base64RoundTrip | src/lib/base64.c:46-150 | decoding an encoding gives the bytes back and tells padding |
| Encoding.Base64Shape | src/lib/base64.c:46-79 | length, alphabet and padding of an encoding |
| Encoding.Alphabet64 | src/lib/base64.c:7-8 | the digits are those of section 4 of RFC 4648, and no other character is read as one |
| Encoding.SixBitGroups | src/lib/base64.c:46-79 | three bytes and the four digits that encode them are the same 24-bit number, high bits first |
| Encoding.EncodeGroup | src/lib/base64.c:46-79 | a group of three bytes is written as its four digits |
| Encoding.SpaceSkipped | src/lib/base64.c:84-150 | spaces, tabs and line ends in front of a group are skipped |
| Encoding.BinaryToHex | src/lib/hex-binary.c:7-27 | two digits per byte in either case |
| Encoding.HexToBinary | src/lib/hex-binary.c:56-85 | the loop computes the recursive decoding |
| Encoding.HexRoundTrip | src/lib/hex-binary.c:7-85 | decoding undoes encoding in either case |
| Encoding.HexAlphabet | src/lib/hex-binary.c:7-27 | the digits of a byte, high half first, in upper or lower case |
| Encoding.SpoiltHex | src/lib/hex-binary.c:56-85 | one wrong character spoils a string |
| TextFields.SplitOfJoin | src/lib/strfuncs.c:405-467 | fields without commas come back from their joined text if and only if they are not one empty field |
| TextFields.WithoutLast | src/lib/strfuncs.c:576-590 | removing the last field by value removes it if no other equals it |
| TextFields.DecimalRoundTrip | src/lib/strnum.c:20-31 | a printed number is read back |
| TextFields.DecimalMeans | src/auth/password-scheme-scram.c:150-154 | each decimal digit is written behind those of the number without it |
| TextFields.ToUintMeans | src/lib/strnum.c:20-31 | only digits are read as a number, and only a number of 32 bits |
| PasswordScheme.LookupName | src/auth/password-scheme.c:25-37 | the first scheme of that name, whatever its case |
| PasswordScheme.Lookup | src/auth/password-scheme.c:42-75 | what the part before the first dot and the suffix mean, or nothing |
| PasswordScheme.SuffixMeans | src/auth/password-scheme.c:63-73 | `.b64` and `.base64` mean base64, `.hex` means hexadecimal, no dot means the default of the scheme, and nothing else means anything |
| PasswordScheme.NamesInAnyCase | src/auth/password-scheme.c:25-37 | two names are the same if and only if they differ at most in the case of the letters A to Z |
| PasswordScheme.MeansOne | src/auth/password-scheme.c:42-75 | a name means at most one scheme and encoding |
| PasswordScheme.Decode | src/auth/password-scheme.c:141-213 | decoding with the named, default or guessed encoding, and its errors |
| PasswordScheme.GuessedHex | src/auth/password-scheme.c:161-174 | without a suffix every fixed-length password is recovered from its hexadecimal form |
| PasswordScheme.GuessedBase64 | src/auth/password-scheme.c:161-203 | and from its base64 form, for every length |
| PasswordScheme.GenerateEncoded | src/auth/password-scheme.c:230-258 | the generated password in the named or default encoding: as it is, or its base64 or hexadecimal text |
| PasswordScheme.EncodedBack | src/auth/password-scheme.c:141-258 | decoding gives the raw password back if and only if its length fits and, unencoded, it has no NUL |
| PasswordScheme.StoreAndVerify | src/auth/password-scheme.c:77-258 | generated, stored, decoded and verified: a kept password is judged as generated, which without a verdict of the scheme's own accepts exactly what generates the same; an unknown scheme or unreadable text gives nothing |
| PasswordScheme.SchemeRoundTrip | src/auth/password-scheme.c:110-139 | the scheme prefix is taken off as put on, if and only if it has no closing brace |
| PasswordScheme.Md5Scheme | src/auth/password-scheme.c:117-127 | a password that starts with `$1$`, a salt and a hash is MD5-CRYPT, and what follows another dollar sign is cut off |
| ScramPassword.ComputeHi | src/auth/password-scheme-scram.c:27-51 | the loops compute Hi of section 2.2 of RFC 5802 |
| ScramPassword.HiMeans | src/auth/password-scheme-scram.c:27-51 | section 2.2 of RFC 5802: the first HMAC is of the salt and a four-byte 1, each later one of the one before, and Hi is their exclusive or |
| ScramPassword.KeysMean | src/auth/password-scheme-scram.c:139-186 | stored key and server key from the salted password, with the constants of section 3 of RFC 5802 |
| ScramPassword.XorBitwise | src/auth/mech-scram-sha1.c:241-243 | exclusive or of bytes, bit by bit |
| ScramPassword.XorTwice | src/auth/mech-scram-sha1.c:241-243 | masking twice with the same bytes is the identity |
| ScramPassword.EntryRoundTrip | src/auth/password-scheme-scram.c:53-186 | every well-formed entry parses back to its fields |
| ScramPassword.EntryText | src/auth/password-scheme-scram.c:150-178 | the four fields of an entry and their order |
| ScramPassword.ParsedMeans | src/auth/password-scheme-scram.c:53-92 | the four fields of an entry that is accepted, the bounds of its iteration count and the lengths of its keys; every other entry is refused |
| ScramPassword.Generate | src/auth/password-scheme-scram.c:139-186 | the entry with the stored and server keys of RFC 5802, as comma-separated text |
| ScramPassword.GeneratedEntry | src/auth/password-scheme-scram.c:139-186 | a generated entry parses to those keys |
| ScramPassword.Verify | src/auth/password-scheme-scram.c:94-137 | accepts exactly the passwords with the entry's stored key |
| ScramPassword.GenerateAndVerify | src/auth/password-scheme-scram.c:94-186 | a generated entry accepts its password, and exactly those with the same stored key |
| ScramMech.UnescapeUsername | src/auth/mech-scram-sha1.c:96-117 | the loop computes the recursive unescaping |
| ScramMech.UnescapeEscaped | src/auth/mech-scram-sha1.c:96-117 | unescaping undoes escaping |
| ScramMech.EscapeUnescaped | src/auth/mech-scram-sha1.c:96-117 | a name has only one escaped form |
| ScramMech.FirstUnderstood | src/auth/mech-scram-sha1.c:119-221 | the server reads a conforming client's first message |
| ScramMech.ServerFirstUnderstood | src/auth/mech-scram-sha1.c:49-71 | the client reads the server's first message |
| ScramMech.FinalUnderstood | src/auth/mech-scram-sha1.c:289-344 | the server reads the last message, or refuses it as a channel binding error exactly if there is an authzid |
| ScramMech.MessagesMean | src/auth/mech-scram-sha1.c:49-71 | the texts of the messages, attribute by attribute |
| ScramMech.AuthMessageMeans | src/auth/mech-scram-sha1.c:223-251 | the signed message is client-first-bare, server-first and client-final without its proof, in this order, with commas |
| ScramMech.FirstExactly | src/auth/mech-scram-sha1.c:119-221 | a first message that is read has its flag, escaped names and nonce in these places, and both names are allowed |
| ScramMech.FinalExactly | src/auth/mech-scram-sha1.c:289-344 | a last message is read if and only if it binds the flag without an authzid, repeats the nonce and ends in a proof of the right length |
| ScramMech.EscapeMeans | src/auth/mech-scram-sha1.c:96-117 | only commas and equals signs are escaped, as `=2C` and `=3D` |
| ScramMech.ProofAccepted | src/auth/mech-scram-sha1.c:223-251 | the client's proof unmasks its key |
| ScramMech.Request.BuildServerFirst | src/auth/mech-scram-sha1.c:49-71 | the nonce bytes become printable without commas, in place |
| ScramMech.Request.Credentials | src/auth/mech-scram-sha1.c:253-287 | a message is sent exactly for a well-formed entry |
| ScramMech.Request.VerifyCredentials | src/auth/mech-scram-sha1.c:223-251 | true exactly if the unmasked key hashes to the stored key |
| ScramMech.Request.Continue | src/auth/mech-scram-sha1.c:346-386 | which messages lead to a lookup or to success with the server's signature; every other one fails |
| ScramMech.GeneratedIsKnown | src/auth/password-scheme-scram.c:139-186 | a generated entry holds the keys that the exchange needs |
| ScramMech.NonceIsPlain | src/auth/mech-scram-sha1.c:56-64 | the server nonce can stand in a field |
| ScramMech.Exchange | src/auth/mech-scram-sha1.c:49-386 | a client of section 3 of RFC 5802 that knows the password is let in exactly without an authzid, and gets the right server signature over the message that the standard names |

## Left out

- The event loop, sockets, streams, OS timers, DNS and forking: only the events they deliver are modelled.
- The LDAP client library, attribute mapping, result iteration, TLS options and the synchronous SASL bind.
- Re-entrant callbacks, and shutting the worker pool down.
- Pointer identity of worker connections and LDAP requests: they are values in a table or a queue, so aliasing among them is not modelled. The list of penalty records is a sequence.
- Reuse of LDAP message ids by the library, and requests created with a timestamp that does not fit.
- Counters of connections and references beyond 32 bits in the connection limiter.
- SHA-1, HMAC and the other password schemes' own computations: parameters with fixed output lengths.
- `var_expand` tokenising, the settings parser and the old-settings translation: queries are tokens and configuration lines are abstract.
- `auth_fields_booleanize`, importing and exporting fields, and the hidden and changed flags in the rollback result.
- userdb lookups, credential lookups, the passdb cache and the checks in front of a plaintext lookup, and PAM, SQL, dict and other drivers.
- Relative include paths and symbolic links: a file has the path names it is opened under, and there are finitely many.
- `config_filter_find_subset` and copying settings between parsers.
- Logging, memory pools, process titles and secure wiping.
- AuthCache.Cache.Insert: takes the expanded key, so that inserting under the translated user name (src/auth/auth-cache.c:413-424) is the caller's affair; statistics counters and the size of the cache structure itself are not modelled.
- ConfigFilter.InNetwork: an address is its bits, so masking with a shifted mask is comparing that slice.
- ConfigFilter.FindAll: whether a filter has changed settings is a parameter; the sort is any sort by the comparison.
- CacheKey.KeySoundExactly: queries that the key parser and the expansion tokenise differently are not among the tokens: in `%{foo %u` the key has one unclosed variable and in `%5-%u` the variable `%`, while the query goes on to expand `%u`.
- Penalty.Tracker.Inc: times are unbounded, so a clock beyond the 32 bits of `last_penalty` (src/anvil/penalty.c:30) is not modelled.
- ScramMech.Request.Continue: a last field that is just `p`, where the C code reads past the end of the string, counts as a bad proof.
- WorkerPool.Pool.HandleReply: callbacks for final replies always return TRUE, so only partial replies can pause the input.
