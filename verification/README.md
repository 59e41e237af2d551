# Guartrix verification model

Guartrix is a hosting panel: an API server, a daemon on every node, and a node agent that runs game
servers in containers. This project models its small algorithmic cores in Dafny and proves what each
of them is for. `dafny verify dfyconfig.toml` checks the whole project.

| file | what it models |
|---|---|
| `Words.dfy`, `JsText.dfy`, `Sorting.dfy` | JavaScript's 32-bit shifts, string library and stable sort, as far as the rest needs them |
| `Base32.dfy`, `Totp.dfy` | the two-factor codec and code check (`totp.ts`) |
| `McPing.dfy` | VarInts, packet framing and the status-reply handler (`mc-ping.ts`) |
| `RateLimit.dfy`, `FileRateLimit.dfy`, `RedisRateLimit.dfy` | one sliding-window rule and its three stores (`rate-limit-store.ts`) |
| `FixedWindow.dfy` | the daemon's fixed-window limiter (`apps/daemon/src/rate-limit.ts`) |
| `RedisLock.dfy` | the leader locks (`redis.ts`) |
| `Placement.dfy` | automatic placement and the capacity check (`nodes-placement.ts`, `nodes-capacity.ts`) |
| `LicenseQuota.dfy` | load shedding under license RAM caps (`license-quota.ts`) |
| `LicenseGate.dfy`, `PanelLicense.dfy` | the grace-period state machines of the daemon and of the panel |
| `CrashLoop.dfy` | crash counting and automatic restarts (`process-*.ts`) |
| `SftpJail.dfy` | the SFTP path jail over a file tree with links (`sftp-jail.ts`) |
| `LineFraming.dfy` | the newline framing of the Docker stats stream (`docker-engine.ts`) |
| `ShellQuote.dfy` | shell quoting of the remote install command (`remote-install.ts`) |

Code that works by changing state is modelled as methods and classes, each tied by its `ensures` to a
function on values; the theorems about whole runs are proved about those functions. Time is an integer
that does not decrease. HMAC, signature checking and JSON parsing are arbitrary functions passed as
parameters. Disk, Redis, database rows and running timers are part of the modelled state, and failing
writes, lost replies, unreachable daemons and restarts are explicit inputs.

## Findings

Places where the code does something its readers may not expect. Each is a lemma below.

- A status reply whose first chunk ends inside the length prefix is reported as offline
  (`McPing.ReplyUnderChunking`).
- Rate-limit keys that differ only in unusual characters share a bucket, on disk and in Redis
  (`RateLimit.SafeKeysCollide`). A key used with two windows can lose hits: at a restart of the file
  store (`FileRateLimit.RestartForgetsExactly`) and whenever a short window has just run out in Redis
  (`RedisRateLimit.RunsLikeMemoryExactlyWhen`, `RedisRateLimit.ShortWindowForgets`).
- The Redis rate limit holds under concurrency if and only if no two calls overlap between their
  count and their add (`RedisRateLimit.LimitHoldsExactlyAlone`): with k calls at once max + k − 1
  hits are stored, for every window and limit.
- A lock renewal that straddles an expiry makes two leaders (`RedisLock.StraddlingRunHasTwoLeaders`).
- The daemon's limiter lets 2·MAX − 1 requests into one window, and no more
  (`FixedWindow.BoundIsReached`).
- The environment reference describes a soft-valid window of 12 hours for an unreachable license
  server. The code also asks for a valid result earlier in the same process and a valid cached state
  at the start of the check. So after a restart or a cleared key an unreachable check is always
  invalid; after a new key it is, unless a check that saw a valid state is under way within the grace
  (`PanelLicense.StartsFromScratchExactlyWhen`).
- The key may change while a check is under way. A check of the old key that is then confirmed makes
  the panel valid for the new key, or for none (`PanelLicense.ConfirmationAfterChange`), and so does
  an unreachable server when the check had seen a valid state (`PanelLicense.GraceOfAnotherKey`).
  Without such a check a valid panel always rests on a signed check of its current key, and the
  condition is exact (`PanelLicense.ValidMeansCurrentKey`, `PanelLicense.KeyChangeIsCleanExactlyWhen`).
- The capacity check looks at a disk size only when the creation names one, but every creation stores
  one: without it a node can be taken over its disk budget (`Placement.UnnamedDiskGoesOver`). RAM and
  CPU stay within budget in every history, as an unnamed CPU size is stored as zero.
- The disk size of a pool is declared as the budget of the whole pool, but the checks count one node at
  a time. It is kept by every history if and only if at most one deployable node is linked to the pool
  (`Placement.WholePoolHoldsExactlyWhen`).
- A transfer checks the data directory of the destination but keeps the server in its pool. It keeps
  the destination's use of the pool within budget exactly when there happens to be room
  (`Placement.TransferKeepsNode`), and with transfers the whole pool is kept within budget only if the
  linked node is the only deployable one (`Placement.WholePoolHoldsWithTransfersExactlyWhen`).
- A kill detaches the child before it ends, so its flag is not taken back by the exit but by a timer of a
  minute: a server that is started again and crashes within that minute is taken for killed and not
  restarted (`CrashLoop.CrashAfterKill`). A stop whose exit the container check confirms has no such gap
  (`CrashLoop.CrashAfterStop`).
- The SFTP handlers show paths relative to the root as configured, while the jail returns paths below
  the root as resolved: with a root reached through a link, what the client is shown is refused when
  it is sent back (`SftpJail.SftpPathRoundTrip`).

## Model

| member | source | states |
|---|---|---|
| Words.ShiftIn | apps/api/src/auth/totp.ts:51-62 | in a 32-bit shift register that is never masked, shifting bits in leaves exactly the live bits followed by the new ones, whatever garbage lies above them |
| Words.TakeTop | apps/api/src/auth/totp.ts:57-60 | reading the top bits of the live ones leaves the others in place |
| JsText.SpacesAreListed | apps/api/src/auth/totp.ts:104 | white space is the 25 characters of the ECMAScript standard, one by one |
| JsText.TrimMeans | packages/node-agent/src/docker-engine.ts:229 | trimming a text without outer white space that has any amount of it put around it gives the text back |
| Base32.Base32Encode | apps/api/src/auth/totp.ts:51-67 | the loop writes the big-endian number of the bytes, padded with zero bits to whole letters, in base 32: section 6 of RFC 4648 without padding characters |
| Base32.Base32Decode | apps/api/src/auth/totp.ts:69-83 | the loop returns all whole bytes of the number the letters write, after upper-casing with JavaScript's full mapping and dropping characters outside the alphabet |
| Base32.IndexOfLetter | apps/api/src/auth/totp.ts:17 | every character the decoder keeps has an index in the alphabet, so the lookup never yields -1 |
| Base32.RoundTrip | apps/api/src/auth/totp.ts:51-83 | every byte string comes back from its encoding, in either case and with anything typed into it that upper-casing does not turn into letters |
| Base32.SpelledRoundTrip | apps/api/src/auth/totp.ts:51-83 | an encoding spelled in any mixture of cases, with any other ASCII characters put in, decodes to the bytes |
| Base32.EncodingShape | apps/api/src/auth/totp.ts:51-67 | the encoding has exactly ceil(8n/5) letters, all of the alphabet, and decodes to the bytes |
| Base32.NumberOfEncoding | apps/api/src/auth/totp.ts:51-67 | read as a base-32 number, the encoding is the number of the bytes shifted by the padding, so nothing is truncated |
| Base32.CanonicalStrings | apps/api/src/auth/totp.ts:51-83 | decoding then encoding gives a string back if and only if it has fewer than five spare bits and they are zero |
| Totp.Hotp | apps/api/src/auth/totp.ts:90-101 | for any 20-byte digest the truncation stays inside the digest and the result is six decimal digits |
| Totp.HotpIsDynamicTruncation | apps/api/src/auth/totp.ts:90-101 | section 5.3 of RFC 4226 in its own words: the code is the low 31 bits of four digest bytes, most significant first, modulo 10^6, for the counter as one eight-byte number |
| Totp.VerifyTotp | apps/api/src/auth/totp.ts:103-123 | accepts exactly the codes some clock within one time step would show for the stored secret, rejects malformed codes and unusable secrets, and throws only in the first step of 1970 |
| Totp.NormalizeKeeps | apps/api/src/auth/totp.ts:104 | a code without spaces and dashes is taken as typed |
| Totp.NormalizeIgnores | apps/api/src/auth/totp.ts:104 | a space or dash typed anywhere in a code changes nothing |
| Totp.AcceptedExactlyWhen | apps/api/src/auth/totp.ts:103-123 | a code typed with any spaces and dashes is accepted if and only if the secret is usable and some clock at most 30 s off shows the code, and the check throws if and only if both are well formed in the first 30 s of 1970 |
| Totp.ProvisionedCodesVerify | apps/api/src/auth/totp.ts:86-123 | end to end: a secret handed out in Base32 and copied in any case with any fillers gives codes that are accepted, typed with any spaces and dashes, while the clocks differ by at most one step |
| McPing.WriteVarInt | apps/api/src/lib/mc-ping.ts:19-29 | the loop writes the little-endian groups of seven bits of the value taken as an unsigned 32-bit word |
| McPing.ReadVarInt | apps/api/src/lib/mc-ping.ts:31-45 | reads up to the first byte without continuation bit, with signed 32-bit wrap-around, and fails exactly on a missing or a sixth byte |
| McPing.AddGroup | apps/api/src/lib/mc-ping.ts:39 | the shifted group never overlaps the bits read before it, also when its upper bits fall off the word |
| McPing.ParseWritten | apps/api/src/lib/mc-ping.ts:19-45 | bytes that start with a written word read as that word, with its size |
| McPing.ParseExactlyWhen | apps/api/src/lib/mc-ping.ts:31-45 | reading fails for want of a byte if and only if at most five come and all continue, and as too big if and only if the first five of six or more continue |
| McPing.VarIntRoundTrip | apps/api/src/lib/mc-ping.ts:19-45 | every signed 32-bit value is read back from where it was written, with its size of 1 to 5 bytes, whatever surrounds it |
| McPing.WrittenFormIsShortest | apps/api/src/lib/mc-ping.ts:19-45 | no byte string that reads as a value is shorter than what the writer writes for it |
| McPing.FrameOfPacket | apps/api/src/lib/mc-ping.ts:58-62 | cutting a packet off a buffer gives its id, its data and its size, whatever follows it |
| McPing.StreamsSplitUniquely | apps/api/src/lib/mc-ping.ts:58-62 | two lists of packets with the same bytes are the same list |
| McPing.OtherPacketIsOffline | apps/api/src/lib/mc-ping.ts:141-145 | a complete packet with any id other than 0 ends the ping as offline |
| McPing.UnreadableIdIsOffline | apps/api/src/lib/mc-ping.ts:141 | so does one without a readable id |
| McPing.ZeroPacketIsAnswered | apps/api/src/lib/mc-ping.ts:147-181 | what every complete packet with id 0 leads to, whatever its data: which bytes are taken as JSON, negative lengths included, and when the handler waits or gives up |
| McPing.PartialPacket | apps/api/src/lib/mc-ping.ts:137-138 | an incomplete packet is waited for unless the cut is inside its length |
| McPing.PartialReply | apps/api/src/lib/mc-ping.ts:134-181 | what the handler does with every prefix of a well-formed reply: give up inside the length prefix, wait, or answer, online if its JSON parses and offline otherwise |
| McPing.ReplyUnderChunking | apps/api/src/lib/mc-ping.ts:134-181 | a well-formed reply, complete or not, under every way of cutting it into chunks: the handler gives up if and only if the first chunk ends inside the length prefix, and otherwise waits for the rest and answers with the JSON |
| RateLimit.StoreKeepsTheWindow | apps/api/src/infra/rate-limit-store.ts:22-45 | the pruned bucket holds exactly the accepted hits of the whole past that the current window covers |
| RateLimit.RejectedExactlyWhenFull | apps/api/src/infra/rate-limit-store.ts:27-45 | a hit is rejected if and only if the accepted hits in the window ending now number max, and otherwise the remaining count is exact |
| RateLimit.NeverOverLimit | apps/api/src/infra/rate-limit-store.ts:27-45 | every half-open interval of length windowMs holds at most max accepted hits |
| RateLimit.KeysAreIndependent | apps/api/src/infra/rate-limit-store.ts:48-61 | a key is judged by its own hits since its last clear, whatever other keys do |
| RateLimit.MemoryRateLimitStore.Hit | apps/api/src/infra/rate-limit-store.ts:51-56 | one hit changes its own bucket only and gives the answer of the rule |
| RateLimit.MemoryRateLimitStore.Clear | apps/api/src/infra/rate-limit-store.ts:58-60 | forgets one key and nothing else |
| RateLimit.SafeKeyMeans | apps/api/src/infra/rate-limit-store.ts:18-20 | a key is stored under its own name with an underscore for every character other than the 67 letters, digits and marks listed |
| RateLimit.SafeKeysCollide | apps/api/src/infra/rate-limit-store.ts:18-20 | two keys share a file and a bucket if and only if they have the same length and agree at every place that is not, in both, an underscore or outside the 67 listed characters |
| FileRateLimit.FileRateLimitStore.constructor | apps/api/src/infra/rate-limit-store.ts:73-118 | hydration keeps the hits that the saved window still covers and drops the files without any |
| FileRateLimit.FileRateLimitStore.Schedule | apps/api/src/infra/rate-limit-store.ts:120-157 | an operation goes to the end of its key's chain, also after earlier failures |
| FileRateLimit.FileRateLimitStore.Hit | apps/api/src/infra/rate-limit-store.ts:159-166 | the cache behaves as the memory store, the disk is untouched, and replaying the key's pending chain onto its file gives exactly its new cache entry |
| FileRateLimit.FileRateLimitStore.Clear | apps/api/src/infra/rate-limit-store.ts:168-172 | the same for a clear: replaying the chain leaves no file |
| FileRateLimit.FileRateLimitStore.RunNext | apps/api/src/infra/rate-limit-store.ts:120-157 | what one pending operation that succeeds or fails changes, with the store staying valid |
| FileRateLimit.ScheduledIsValid | apps/api/src/infra/rate-limit-store.ts:120-172 | scheduling the write or delete of the new cache entry makes replaying the chain give exactly the cache, which repairs earlier failures |
| FileRateLimit.TriedIsValid | apps/api/src/infra/rate-limit-store.ts:120-157 | a pending operation that succeeds or fails keeps every touched key's replay equal to its cache entry, except that of a key whose last operation just failed |
| FileRateLimit.StepKeepsValid | apps/api/src/infra/rate-limit-store.ts:67-173 | every call, pending operation and restart keeps this |
| FileRateLimit.ReplayAppend | apps/api/src/infra/rate-limit-store.ts:120-157 | the last operation of a chain alone decides what it leaves on disk |
| FileRateLimit.LiveTwice | apps/api/src/infra/rate-limit-store.ts:85-118 | hydrating at one time and again later is hydrating later |
| FileRateLimit.BootKeepsLiveFiles | apps/api/src/infra/rate-limit-store.ts:85-118 | a start keeps exactly the files with a hit that their saved window still covers, and caches exactly those hits |
| FileRateLimit.DrainedFileIsTheCache | apps/api/src/infra/rate-limit-store.ts:120-157 | when all pending operations of a key succeed its file ends up as its cache entry, and no other file changes |
| FileRateLimit.DrainedDiskIsTheCache | apps/api/src/infra/rate-limit-store.ts:85-118 | starting from a drained disk restores exactly the live part of the old cache |
| FileRateLimit.AlikeAnswers | apps/api/src/infra/rate-limit-store.ts:159-172 | stores that differ only in hits no future window covers answer every later run alike |
| FileRateLimit.RestartIsInvisible | apps/api/src/infra/rate-limit-store.ts:85-172 | a cache hydrated from the live part of another answers every later run as the other does, if each key keeps its window |
| FileRateLimit.FollowsRun | apps/api/src/infra/rate-limit-store.ts:67-173 | over every run of hits, clears, pending operations that succeed or fail, and restarts that find the disk drained, no later hit can tell the store from a memory store that never restarted |
| FileRateLimit.RunsLikeMemory | apps/api/src/infra/rate-limit-store.ts:67-173 | so every hit of such a run, from any disk, is answered as by that memory store |
| FileRateLimit.RestartForgetsExactly | apps/api/src/infra/rate-limit-store.ts:85-118 | with a different window the restart changes what a hit sees if and only if some saved hit had expired under the saved window but lies in the new one |
| RedisRateLimit.RedisRateLimitStore.Hit | apps/api/src/infra/rate-limit-store.ts:199-216 | the four commands of one undisturbed hit on the key's Redis name |
| RedisRateLimit.RedisRateLimitStore.Clear | apps/api/src/infra/rate-limit-store.ts:223-226 | DEL of the key's Redis name and nothing else |
| RedisRateLimit.AloneIsMemory | apps/api/src/infra/rate-limit-store.ts:199-216 | an undisturbed hit on a key that mirrors a bucket answers as the memory store and leaves a mirroring key, its expiry included, unless it finds the key expired too early; then the answers differ |
| RedisRateLimit.RunsLikeMemory | apps/api/src/infra/rate-limit-store.ts:188-227 | every run of undisturbed hits and clears on any keys, with limits changing from call to call, is answered exactly as by the memory store if each key keeps its window |
| RedisRateLimit.RunsLikeMemoryExactlyWhen | apps/api/src/infra/rate-limit-store.ts:188-227 | with any windows and limits of at least one, all answers agree if and only if no hit finds its key expired by the previous window while its own window covers a remembered hit |
| RedisRateLimit.ShortWindowForgets | apps/api/src/infra/rate-limit-store.ts:199-216 | the stores differ on every long-windowed hit that follows a short window which has just run out |
| RedisRateLimit.StepKeepsBound | apps/api/src/infra/rate-limit-store.ts:205-211 | every single command of any call keeps stored plus in-flight hits at most max + k - 1, while at most k calls are between count and add |
| RedisRateLimit.AloneIsTheSteps | apps/api/src/infra/rate-limit-store.ts:199-226 | the interleavable commands of a call, run back to back at any later time, are the undisturbed hit, and a DEL forgets the key |
| RedisRateLimit.OvershootIsBounded | apps/api/src/infra/rate-limit-store.ts:199-216 | the same over every interleaving of any number of calls, clears and expiries |
| RedisRateLimit.OvershootIsReached | apps/api/src/infra/rate-limit-store.ts:205-211 | for every window, limit and number k of calls at once some run stores exactly max + k - 1 hits |
| RedisRateLimit.LimitHoldsExactlyAlone | apps/api/src/infra/rate-limit-store.ts:199-216 | no run ever stores more than the limit if and only if at most one call is between its count and its add |
| RedisRateLimit.TwoPassALimitOfOne | apps/api/src/infra/rate-limit-store.ts:205-211 | for every window two calls can pass a limit of one |
| FixedWindow.DaemonRateLimit.OnRequest | apps/daemon/src/rate-limit.ts:24-40 | one request changes its own bucket only, and is let through if and only if that bucket's count stays within the limit |
| FixedWindow.BucketsAreBounded | apps/daemon/src/rate-limit.ts:29-40 | what the current bucket and the window before it have let through, over every run |
| FixedWindow.UnderTwiceTheLimit | apps/daemon/src/rate-limit.ts:29-40 | at most 2·MAX − 1 requests of a key pass in any half-open interval of length WINDOW_MS |
| FixedWindow.BoundIsReached | apps/daemon/src/rate-limit.ts:29-40 | for every limit and window of at least 2 ms some run reaches that bound |
| RedisLock.RedisKey.Acquire | apps/api/src/infra/redis.ts:286-304 | an undisturbed call succeeds if and only if the key is free or its own, and then owns it for a whole ttl; otherwise the key is unchanged |
| RedisLock.AloneIsTheSteps | apps/api/src/infra/redis.ts:312-329 | the two interleavable commands of a call, run back to back, are that undisturbed call |
| RedisLock.NoSecondLeader | apps/api/src/infra/redis.ts:286-329 | in every interleaving in which no GET and its PEXPIRE straddle an expiry, once an instance succeeds at t no other does until after t plus its ttl |
| RedisLock.NoSecondLeaderIfOwn | apps/api/src/infra/redis.ts:286-329 | the same under the weaker condition that every PEXPIRE finds a lock of its own instance |
| RedisLock.ForeignRenewalBreaksIt | apps/api/src/infra/redis.ts:290-294 | the condition is exact: from any state in which a PEXPIRE finds no lock or a foreign one, some continuation has two leaders at once |
| RedisLock.StraddlingRunHasTwoLeaders | apps/api/src/infra/redis.ts:290-294 | such a run exists from the start |
| Placement.BestStorageOnNode | apps/api/src/nodes/nodes-placement.ts:95-121 | finds a place with room if there is one, and then a roomiest one |
| Placement.BudgetIsExact | apps/api/src/nodes/nodes-helpers.ts:29-33 | the budget is the largest whole number within the limit plus its percentage, of which 0 to 1000 count |
| Placement.RankNode | apps/api/src/nodes/nodes-placement.ts:123-157 | returns a feasible pair that ranks before every feasible pair of the node, or nothing if none is feasible |
| Placement.ResolveCreatePlacement | apps/api/src/nodes/nodes-placement.ts:222-257 | fails if and only if no candidate pair is feasible, with the right reason; otherwise no feasible pair of any candidate node has more free RAM than the chosen one, as much RAM and more CPU, or as much of both and more disk |
| Placement.RanksAreOrdered | apps/api/src/nodes/nodes-placement.ts:159-166 | the comparator is a total preorder, as sorting needs |
| Placement.BestHasMost | apps/api/src/nodes/nodes-placement.ts:159-166 | coming first in the comparator's order is having the most free RAM, then CPU, then disk |
| Placement.OnlineNodesFirst | apps/api/src/nodes/nodes-placement.ts:52-75 | a node is a candidate if and only if it is deployable, not in maintenance, linked to the pool asked for, and online or no such node is online |
| Placement.FirstIsBest | apps/api/src/nodes/nodes-placement.ts:255-256 | the first element after sorting is one of the candidates and comes before all of them |
| Placement.FeasiblePassesCapacity | apps/api/src/nodes/nodes-capacity.ts:24-117 | a feasible pair passes the capacity check if and only if nothing the check looks at is already over-committed, so always for positive requests |
| Placement.ChosenPairPassesCapacity | apps/api/src/nodes/nodes-capacity.ts:55-116 | any automatically chosen pair passes the capacity check |
| Placement.CapacityIsFeasible | apps/api/src/nodes/nodes-placement.ts:25-93 | what passes the capacity check with a named disk is a deployable node of the table and feasible for automatic placement, whether its place is left open or asked for |
| Placement.AddedKeepsExactlyWhen | apps/api/src/nodes/nodes-capacity.ts:55-116 | one more server keeps a node within its RAM, CPU, data-directory or pool budgets if and only if its size fits what is left there |
| Placement.CreateKeepsNode | apps/api/src/nodes/nodes-capacity.ts:55-116 | a checked creation keeps the node within its RAM and CPU budgets and, if it names its disk, within those of the data directory and of its own use of every pool; an unnamed disk keeps them exactly when it fits, in the data directory or in a pool |
| Placement.CreateAllowedExactlyWhen | apps/api/src/nodes/nodes-capacity.ts:24-117 | the check is no stricter: a creation that names its sizes is allowed if and only if the node is deployable, is left within all its budgets, and has the pool asked for enabled and linked |
| Placement.TransferKeepsNode | apps/api/src/servers/transfer/start.ts:86-91 | a checked transfer keeps the destination's RAM and CPU budgets, and the disk budgets of a server in a pool exactly when the destination's use of the pool has room |
| Placement.ChangeMemoryKeepsNode | apps/api/src/nodes/nodes-capacity.ts:55-68 | a checked change of one server's RAM, with that server left out of the count, keeps every budget |
| Placement.MemoryChangeAllowedExactlyWhen | apps/api/src/nodes/nodes-capacity.ts:55-68 | a change of one server's RAM is allowed if and only if it leaves the node within its RAM budget, on any node |
| Placement.ChangeKeepsBudgets | apps/api/src/nodes/nodes-capacity.ts:24-117 | every checked creation, change of RAM, deletion and transfer keeps all nodes within their RAM and CPU budgets, and within those for disk unless a disk size is unnamed or a pool's server moves |
| Placement.BudgetsHoldForever | apps/api/src/nodes/nodes-capacity.ts:24-117 | so does every history of them, RAM and CPU without any condition on the history |
| Placement.UnnamedDiskGoesOver | apps/api/src/servers/server-provision.ts:147-148 | a creation that names no disk stores the default of 10240 MiB unchecked and takes a node with less left over its disk budget |
| Placement.UnnamedDiskGoesOverSomewhere | apps/api/src/billing/billing-provision.ts:98 | such a node and creation exist, starting from a panel within all budgets |
| Placement.WholePoolHoldsExactlyWhen | apps/api/src/nodes/nodes-capacity.ts:82-91 | the pool's own disk size bounds what all nodes together give out of it, over every history of creations that name their disk, changes of RAM and deletions, if and only if at most one deployable node is linked to it |
| Placement.TransferStretchesPool | apps/api/src/servers/transfer/execute.ts:82-85 | one linked node and another deployable one suffice to give out more than the pool once a server is transferred |
| Placement.WholePoolHoldsWithTransfersExactlyWhen | apps/api/src/servers/transfer/execute.ts:82-85 | with transfers the pool's size holds over every history if and only if no node is deployable besides a deployable linked one |
| LicenseQuota.Panel.Stop | apps/api/src/license/license-quota.ts:96 | one stop changes one status, and succeeds if and only if the daemon answers |
| LicenseQuota.Panel.StopOverCap | apps/api/src/license/license-quota.ts:93-110 | the first loop stops exactly the running servers above the per-server cap and counts the stops that worked |
| LicenseQuota.Panel.StopOverPool | apps/api/src/license/license-quota.ts:112-134 | the second loop stops a largest-first prefix of the servers it reads as running, with `used` always the memory of those it has not stopped |
| LicenseQuota.Panel.StopServersExceedingLicenseQuota | apps/api/src/license/license-quota.ts:79-137 | both phases together, the second reading stale rows for any servers whose status writes have not landed |
| LicenseQuota.GreedyIsBest | apps/api/src/license/license-quota.ts:121-126 | exchange argument: no set of reachable servers that frees enough is smaller than what largest-first stops |
| LicenseQuota.PoolPhaseIsOptimal | apps/api/src/license/license-quota.ts:112-134 | if any set of reachable servers would bring the pool under its limit, the pool phase does so with as few stops as any such set |
| LicenseQuota.RunningAfterStop | apps/api/src/license/license-quota.ts:117-126 | the memory of what still runs is the memory before minus the memory freed |
| LicenseQuota.StaleComeFirst | apps/api/src/license/license-quota.ts:113-121 | servers stopped by the first phase and still read as running come first in the largest-first order, and the others keep theirs |
| LicenseQuota.StaleReadsAreHarmless | apps/api/src/servers/process-manager.ts:50-58 | when every daemon answers the same servers end up stopped, whichever status writes of the first phase the second one sees |
| LicenseQuota.StaleReadStopsMore | apps/api/src/license/license-quota.ts:112-134 | that condition is needed: an oversized server whose daemon does not answer, still read as running, costs a fitting server its place |
| LicenseQuota.EveryoneFits | apps/api/src/license/license-quota.ts:79-137 | when every stop succeeds, each remaining server fits the cap and all together fit the pool, whatever the second phase reads |
| LicenseQuota.SweepTouchesOnlyRunning | apps/api/src/license/license-quota.ts:79-137 | with every daemon answering, stopped and failed servers are left alone, while running, starting and stopping ones keep their status or end stopped, and end stopped above the per-server cap |
| LicenseGate.Gate.AcceptLicenseTicket | apps/daemon/src/license-gate.ts:57-119 | what each kind of push stores and replies |
| LicenseGate.Gate.ResolveEffectiveCaps | apps/daemon/src/license-gate.ts:139-189 | licensed caps for a stored ticket that verifies, is valid and is fresh or within the grace, free caps otherwise |
| LicenseGate.GraceStartsAtFreshPush | apps/daemon/src/license-gate.ts:57-119 | in every run the remembered time is exactly that of the latest fresh push not followed by a revoking one: free, stale and bad tickets neither extend nor end the grace |
| LicenseGate.GraceIsRemembered | apps/daemon/src/license-gate.ts:57-119 | the remembered time grants the grace if and only if an unrevoked push made less than the grace ago carried verified, valid claims whose iat and exp covered it |
| LicenseGate.LicensedCapsAreEarned | apps/daemon/src/license-gate.ts:139-189 | in every run licensed caps are those of a pushed, verified, valid ticket whose iat and exp cover the present, or the time of an unrevoked push less than the grace ago |
| LicenseGate.LicensedExactlyWhen | apps/daemon/src/license-gate.ts:139-189 | and they are licensed if and only if the ticket in force verifies, is valid, and is so covered; otherwise they are those of the free tier |
| LicenseGate.AcceptedExactlyWhen | apps/daemon/src/license-gate.ts:57-119 | which pushes are accepted as licensed, accepted as free or refused, in terms of the claims and of earlier pushes, and what each puts in force |
| LicenseGate.FreshPushLicenses | apps/daemon/src/license-gate.ts:57-189 | conversely, a fresh push gives licensed caps for the whole grace |
| LicenseGate.RevokedUntilFresh | apps/daemon/src/license-gate.ts:91-103 | after a verified ticket that says invalid, only a fresh ticket brings licensed caps back |
| PanelLicense.Panel.ValidateLicense | apps/api/src/license/validate-impl.ts:138-150 | answers from a young cache, otherwise joins or begins the one check in flight |
| PanelLicense.Panel.FinishCheck | apps/api/src/license/validate-impl.ts:152-386 | how each way a check can end changes cache, markers and history |
| PanelLicense.ValidReplyExactlyWhen | apps/api/src/license/validate-impl.ts:235-300 | a marked reply makes the panel valid if and only if its claims are signed, for the key, fresh and valid, with status valid or with none and a successful response |
| PanelLicense.UnmarkedReplyExactlyWhen | apps/api/src/license/validate-impl.ts:337-344 | when the marker of such a reply cannot be written the panel is valid if and only if it is within the grace of an earlier valid result |
| PanelLicense.SoftValidExactlyWhen | apps/api/src/license/validate-impl.ts:338-344 | without a reply the panel is valid if and only if its last result and the state at the start of the check were valid and the readable marker is younger than the grace |
| PanelLicense.GraceEnds | apps/api/src/license/validate-impl.ts:138-150 | once the grace is over a check without a reply is invalid, and once the cache interval is over the cached answer is not used |
| PanelLicense.RestartDropsCheck | apps/api/src/license/validate-impl.ts:146-149 | a restart drops the check under way with the cached state, and keeps the key and the marker |
| PanelLicense.Panel.MaybeEnforceTransition | apps/api/src/license/validate-effects.ts:14-32 | enforcement runs if and only if the remembered result was valid and the new one is not |
| PanelLicense.Panel.InvalidateLicenseCache | apps/api/src/license/license-store.ts:278-281 | forgets the cached state and nothing else |
| PanelLicense.Panel.SetLicenseKey | apps/api/src/license/license-store.ts:207-211 | stores the trimmed key and forgets the cached state; a check that begins in between has read the new key and the old state |
| PanelLicense.Panel.ClearLicenseKey | apps/api/src/license/license-store.ts:214-219 | leaves no key, no last good check and no cached state |
| PanelLicense.SupportMeans | apps/api/src/license/validate-impl.ts:338-367 | what it means for an answer to rest on a check: it was signed and valid, and only unreachable checks came after it |
| PanelLicense.ChecksAreGenuine | apps/api/src/license/validate-impl.ts:235-261 | in every run a check counted as valid had claims that are signed, for the key the check began with, neither expired nor from the future, and say valid |
| PanelLicense.StepKeepsBacked | apps/api/src/license/validate-impl.ts:235-385 | every step keeps valid states backed by a recent signed valid check |
| PanelLicense.ValidAnswersAreBacked | apps/api/src/license/validate-impl.ts:138-150 | in every run a valid cached answer rests on a genuine signed valid check less than grace plus cache interval ago, with only unreachable checks since |
| PanelLicense.FinishedAnswersAreBacked | apps/api/src/license/validate-impl.ts:235-385 | a valid answer just obtained rests on one at most the grace ago |
| PanelLicense.OneEnforcementPerFlip | apps/api/src/license/validate-effects.ts:14-32 | in every run the number of enforcements is the number of valid results directly followed by an invalid one |
| PanelLicense.StartsFromScratchExactlyWhen | apps/api/src/license/validate-impl.ts:338-344 | after a key change or restart the panel is valid only after another signed check, if and only if no check under way could still fall back on the grace; that is always so for a restart and a cleared key |
| PanelLicense.OwnedStep | apps/api/src/license/validate-impl.ts:152-386 | every step keeps valid states resting on a signed check of the current key, unless the key changes under a loose check |
| PanelLicense.ValidMeansCurrentKey | apps/api/src/license/validate-impl.ts:152-386 | in every run whose key changes come with no loose check under way a valid state rests on a signed check of the current key, and there is none without a key |
| PanelLicense.KeyChangeIsCleanExactlyWhen | apps/api/src/license/license-store.ts:207-219 | that condition is exact: after a key change or restart every valid state rests on the current key if and only if no check is under way of another key, or one that can fall back on the grace another key earned |
| PanelLicense.ConfirmationAfterChange | apps/api/src/license/validate-impl.ts:235-336 | from the start: a check of the old key confirmed after the key was cleared or replaced leaves the panel valid without a signed check of the present key |
| PanelLicense.GraceOfAnotherKey | apps/api/src/license/validate-impl.ts:338-344 | from the start: so does an unreachable server, when the key is replaced under a check that saw a valid state or one begins during the change |
| CrashLoop.ProcessManager.OnChildExit | packages/node-agent/src/process-attach.ts:143-147 | only the exit of the child currently attached detaches it and goes on |
| CrashLoop.ProcessManager.OnContainerChecked | packages/node-agent/src/process-attach.ts:151-204 | how an exit is classed once the container check answers; any sleep is at most 15 s |
| CrashLoop.ProcessManager.MaybeAutoRestart | packages/node-agent/src/process-status.ts:48-82 | counts the crash, gives up above three, otherwise sleeps 5 s per crash |
| CrashLoop.ProcessManager.ResumeAutoRestart | packages/node-agent/src/process-status.ts:84-97 | starts the server if and only if it is still down with an error, still configured to restart and not being stopped |
| CrashLoop.ProcessManager.StopBegins | packages/node-agent/src/process-lifecycle.ts:27-42 | flags the stop and forgets the crash count |
| CrashLoop.ProcessManager.KillBegins | packages/node-agent/src/process-lifecycle.ts:81-92 | flags the kill, forgets the crash count and detaches the child |
| CrashLoop.StepKeepsInv | packages/node-agent/src/process-attach.ts:143-204 | every step of every interleaving keeps crash counts strictly increasing within the window |
| CrashLoop.RunKeepsInv | packages/node-agent/src/process-status.ts:48-101 | so does every run |
| CrashLoop.AtMostThreeRestarts | packages/node-agent/src/process-status.ts:48-101 | in any 15 minutes without stop, kill or intentional exit of a server at most three of its crashes lead to an automatic start, however crashes, sleeps and manual starts interleave |
| CrashLoop.CountsAreRight | packages/node-agent/src/process-status.ts:59-66 | in every run a crash counts as one if it is the server's first since its last reset or comes 15 minutes after the one before, and otherwise as one more than that |
| CrashLoop.BackOffBeforeRestart | packages/node-agent/src/process-status.ts:81-97 | each automatic start comes at least 5 s per counted crash after its crash, and that is at most 15 s |
| CrashLoop.CrashExactlyWhen | packages/node-agent/src/process-attach.ts:160-195 | which exits count as crashes, out-of-memory kills included whatever their signal |
| CrashLoop.StatusAfterExit | packages/node-agent/src/process-attach.ts:151-204 | which status each exit leaves its server in, and that it touches no other server's |
| CrashLoop.UndisturbedCrashRestarts | packages/node-agent/src/process-status.ts:59-97 | left alone, each of the first three crashes leads to one start exactly 5 s per counted crash later, and a fourth to none |
| CrashLoop.QuietCrashRestarts | packages/node-agent/src/process-status.ts:59-97 | in every run a crash after 15 quiet minutes counts as one and, left alone, starts the server exactly 5 s later, however often it crashed before |
| CrashLoop.DisturbedCrashStartsNothing | packages/node-agent/src/process-status.ts:84-97 | a stop, a kill, a start, another status or switching restarts off during the sleep voids the restart |
| CrashLoop.StoppedStaysDown | packages/node-agent/src/process-status.ts:54-55 | in every run a stopped or killed server is not revived: until another part sets its status or handles a further exit, it stays down and none of its crashes leads to a start |
| CrashLoop.CrashAfterStop | packages/node-agent/src/process-attach.ts:163-176 | a stop is forgotten with its exit: the next crash after a new start counts as one and is followed by a restart |
| CrashLoop.CrashAfterKill | packages/node-agent/src/process-lifecycle.ts:81-117 | a kill is not: the crash of a server killed and started again leads to a restart if and only if the flag of the kill has been dropped in between |
| SftpJail.ResolveJailPath | packages/node-agent/src/sftp-jail.ts:13-55 | returns a path if and only if the request names no `..`, meets no link below the resolved root and no file before its end, and the root is not `/` with something asked below it; then it is that root followed by the request's names |
| SftpJail.InsideIsInside | packages/node-agent/src/sftp-jail.ts:39-41 | the textual containment check rejects a path below the root only when the root is the whole file system |
| SftpJail.RealpathIsPhysical | packages/node-agent/src/sftp-jail.ts:19 | whatever full resolution arrives at exists and is no link |
| SftpJail.PhysicalResolvesToItself | packages/node-agent/src/sftp-jail.ts:42-45 | an existing path that is no link resolves to itself, over every well-formed tree |
| SftpJail.MissingRoot | packages/node-agent/src/sftp-jail.ts:20-22 | below a root that does not resolve, everything fails to resolve in the same way |
| SftpJail.JailContains | packages/node-agent/src/sftp-jail.ts:13-55 | a returned path is the root or below it, no existing part of it below the root is a link, and following all links leaves it where it is |
| SftpJail.PartsOfJoin | packages/node-agent/src/sftp-jail.ts:14-25 | a client path made of clean names asks for exactly those names |
| SftpJail.PartsOfSegments | packages/node-agent/src/sftp-jail.ts:14-24 | a request of any segments joined by slashes asks for those that are neither empty nor a single dot, in order |
| SftpJail.EmptySegmentsAreIgnored | packages/node-agent/src/sftp-jail.ts:24 | an empty or dot segment put in anywhere changes nothing |
| SftpJail.BackslashIsSlash | packages/node-agent/src/sftp-jail.ts:14 | a backslash anywhere in a request stands for a slash |
| SftpJail.SftpPathRoundTrip | packages/node-agent/src/sftp-jail.ts:58-61 | resolving the client form of a resolved path gives the path again if and only if the configured root resolves to itself, and is refused otherwise |
| LineFraming.StatsStream.OnData | packages/node-agent/src/docker-engine.ts:225-241 | one chunk hands on the frames of the complete lines of buffer plus chunk, in order, and keeps the unterminated tail |
| LineFraming.CutRestores | packages/node-agent/src/docker-engine.ts:226-240 | the lines and the tail put together are the text |
| LineFraming.CutIsUnique | packages/node-agent/src/docker-engine.ts:226-240 | there is no other way to cut a text into lines and a tail |
| LineFraming.CutConcat | packages/node-agent/src/docker-engine.ts:226-240 | cutting a first part and then its tail with the rest is cutting the whole |
| LineFraming.ChunkingDoesNotMatter | packages/node-agent/src/docker-engine.ts:223-241 | for every way of chunking a stream the frames handed on and the buffer left are those of the whole stream |
| ShellQuote.FeedQuoted | apps/api/src/nodes/remote-install.ts:347-349 | a shell reads a quoted string as exactly that string, appended to the word it stands in |
| ShellQuote.RenderedLexes | apps/api/src/nodes/remote-install.ts:328-349 | a list of plain words, quoted strings and `&&` joined by spaces lexes back into itself |
| ShellQuote.QuotedListRoundTrip | apps/api/src/nodes/remote-install.ts:347-349 | for every list of strings the shell splits the joined quotations back into exactly those strings |
| ShellQuote.BuildDaemonInstallScript | apps/api/src/nodes/remote-install.ts:317-345 | whatever the options contain, the shell runs exactly the two intended commands with the intended words |

## Left out

- Totp: sealing and unsealing of stored secrets, recovery codes and the otpauth URL; an unsealed secret is a parameter.
- McPing.FrameOfPacket: packets of 2^31 bytes and more, whose length the reader takes as negative; and UTF-8, handshake fields and the contents of the JSON reply.
- McPing.ReadVarInt: the shift distance of the sixth byte, whose value is dropped when the size check throws.
- FileRateLimit: hits that arrive before hydration has finished, temporary files, permissions, and files that are not valid JSON; a failed write is assumed to leave the old file; restarts with writes still pending or failed, which lose them.
- RedisRateLimit: the branch that lets a hit through when Redis fails; random suffixes are assumed distinct in runs compared with the memory store; interleaved calls use one key with one window and limit.
- RedisLock: the mode without Redis, in which every instance leads; the parsing of ttl settings, which yields positive numbers.
- FixedWindow: exempt paths, the choice of the key, and limits that are not whole numbers.
- Placement.ResolveCreatePlacement: a node requested explicitly, the order among equal ranks, and the wording of refusals.
- Placement.BudgetsHoldForever: creations that are checked at the same time, updates of node limits and pool links, and updates of a server's disk, CPU or storage.
- LicenseQuota: the free-tier sweep and the quota assertions, which are single filters; status writes that land out of order.
- LicenseGate: the loading of the public key and the start check, which only compares numbers with the caps; a clock that reads zero.
- PanelLicense: the mode that allows unsigned replies, failure alerts, detection of HTML replies, pushes to daemons, and the second free-tier sweep after a contacted server says invalid; the end of a check is one instant, and so are its two reads at the start.
- CrashLoop: console parsing, and status changes by other parts, which are arbitrary events here; nothing is claimed about a second exit that is handled after one stop.
- SftpJail: file system errors other than missing, not a directory and too many links; changes of the tree during a walk; NUL characters and other platforms' separators on disk.
- LineFraming: the CPU and memory formulas; a callback that throws is a line that does not parse.
- ShellQuote: the SSH session; the lexer gives up on all shell syntax other than the two quoting rules, blanks and `&&`, so it cannot say what other syntax would do.
- Routes, user interface, mail, Docker and MySQL commands, DNS and payments have no algorithm of their own and are not part of this model.
