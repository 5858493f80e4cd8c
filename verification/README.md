# fa_network: relay, store, paging, keys and throttles

A Dafny model of the stateful core of fa_network, the Go server that relays
end-to-end encrypted messages between browsers and a hub, with proofs of what
that core promises. Everything is stated for all inputs, all runs or all
interleavings; `dafny verify dfyconfig.toml` checks it.

| file | what it holds |
|---|---|
| `model.dfy` | envelopes and sequence helpers |
| `relay.dfy` | the relay's shared fields, one function per lock section, and the relay as a class with its `deliver` loop |
| `relay_protocol.dfy` | the relay as a step machine: any number of senders, callers and hub events, one step per lock section or hub call |
| `relay_order.dfy` | when the order promise holds, and runs in which it does not |
| `store.dfy`, `memory_store.dfy` | the in-memory store as tables with one function per operation, and as the class with its loops and in-place compaction |
| `unread.dfy`, `server_ops.dfy` | unread counts, read marks, the retention sweep |
| `fanout.dfy` | message handlers between store, relay and browsers, run alone and interleaved |
| `history.dfy`, `history_deletion.dfy` | chat history in its two implementations, and its cursors across deletions |
| `inbox_key.dfy`, `inbox.dfy`, `decimal.dfy` | the aggregate inbox: keys, cursors, sort, pages, walks |
| `session_keys.dfy` | deterministic session keys |
| `ratelimit.dfy`, `webhook_dedupe.dfy`, `ws_ticket.dfy` | the time-gated maps |
| `guest_names.dfy` | the display-name probe of guest joins |

Classes mirror the source's mutable records. Each method is proved against a
function of the old state, and the laws are proved about those functions over
whole runs. A Go map iterated in random order becomes either a `:|` choice or a
parameter `order`, and the results hold for every order. Go maps that exist
only to be absent-or-default are read with their default.

## What the code promises and does not keep

- **Order.** `internal/server/relay.go:96-98` promises order without a
  condition. It holds exactly when `Outbound` is never called on a channel that
  is online, queued and unattended (`RelayOrder.OrderKeptIff`).
  `ReconnectOvertakes` and `LateAppendOvertaken` are runs that break it, the
  second without any outage; `DrainMissesFailing` strands a queue.
  While envelopes are under way `HubSeesPrefix` goes one way only, since an
  overtaking may not have reached the hub yet; at rest it is an equivalence
  (`HubOrderIff`).
- **Mark-all.** On a channel that never held anything and that the user has not
  seen, a mark-all is dropped, and the next envelope is then baselined as read
  (`Unread.MarkAllForgotten`).
- **History cursors in memory** are positions although the comment calls them
  sequence numbers (`internal/store/memory_data.go:33`). Between two pages they
  hold exactly if nothing before them was deleted and the channel still reaches
  them (`HistoryDeletion.DeletionShiftsCursor`); the SQL ones hold always.
- **Retention** accepts any non-negative number of days, but beyond 106751 the
  64-bit duration wraps (`ServerOps.CutoffExactIff`) and the cutoff can lie
  anywhere (`CutoffIs`): ahead, so that a sweep deletes everything, exactly when
  the product modulo 2^64 exceeds 2^63 (`CutoffAheadIff`, `SweepKeeps`), else
  that many nanoseconds back, be it minutes or centuries (`CutoffWraps`).
- **Session keys.** The number survives exactly when it has room
  (`SessionKeys.NumberKeptIff`, `NumberLost`), and a hashed key contains a
  doubled dash exactly when it has a number but no repository name
  (`HashedKeyNormalIff`).
- **Inbox cursors** round-trip only for network ids without a NUL
  (`InboxKey.CursorRoundTripIff`).
- **Fan-out.** Stores of one id are separated by a removal, fan-outs need not
  be (`Fanout.StoresAreSeparated`, `FanoutsCanBunch`). They are after a fan-out
  exactly when its handler is the only one under way for the pair and its copy
  is still stored (`SeparatedIffLone`, `FanoutsSeparatedIff`).

## Assumptions

- Clocks are parameters, and whole-run results about time assume they never go
  back. One request is one reading.
- A hub `Send` succeeds with the envelope at the hub, or fails with its arrival
  unknown: the two failure outcomes differ only in the hub's log.
- `OrderKeptIff`, `HubSeesPrefix` and `HubOrderIff` assume that an id is accepted once per
  channel, which the store's deduplication gives until the id is deleted.
- `shortHash` is any function to eight lower-case hexadecimal digits, tokens
  and ticket ids are values drawn once.
- Text is a sequence of code points; on the strings compared here Go's byte
  order is the code point order. Lower-casing is exact for what can become a
  letter or digit of a key (A-Z, the Kelvin sign, the dotted capital I).

## Model

| member | source | states |
|---|---|---|
| `Relay.Relayer.Accept` | internal/server/relay.go:99-114 | the decision section of `Outbound`: direct exactly when the hub is up and the channel has no sender, else the envelope joins the end of that channel's queue |
| `Relay.Relayer.TakeNext` | internal/server/relay.go:134-141 | one pop under the lock: the head of the channel's queue, or nothing when it is empty |
| `Relay.Relayer.Deliver` | internal/server/relay.go:117-146 | run undisturbed against any script of hub outcomes, the loop stops with the first k pending envelopes at the hub in order, the rest queued with the failed one in front, the mark gone, other channels untouched, and the hub recorded as down exactly when something is left |
| `Relay.Relayer.Outbound` | internal/server/relay.go:99-114 | either only queues, with nothing sent, or leaves the state a whole `deliver` leaves |
| `Relay.Relayer.DrainAll` | internal/server/relay.go:150-168 | one sender per unattended non-empty queue, started with its head; the count announced is the whole backlog, busy channels included |
| `Relay.DrainEffect` | internal/server/relay.go:153-165 | one drain moves exactly the head of every unattended non-empty queue, whatever order the map is iterated in |
| `Relay.DrainAccounts` | internal/server/relay.go:150-168 | the backlog announced is the envelopes handed to new senders plus what stays queued, and those handed out are exactly the heads of the unattended queues |
| `Relay.BacklogSums` | internal/server/relay.go:148-157 | the count announced is the sum of the queue lengths |
| `RelayProtocol.Refines` | internal/server/relay.go:72-168 | every step of every interleaving looks to each channel like a step of one sequential machine, or like nothing; the single-sender property is inductive |
| `RelayProtocol.AlwaysInv` | internal/server/relay.go:99-168 | over all interleavings: a channel is marked exactly while one `deliver` runs for it; as multisets, accepted = acknowledged + in the sender's hands + queued; the hub has all acknowledged ones |
| `RelayProtocol.QuietMeansDelivered` | internal/server/relay.go:96-98 | at least once: when a channel is idle and its queue empty, everything ever accepted on it is at the hub |
| `RelayProtocol.GapEntry` | internal/server/relay.go:82-85 | online with a queue and no sender is entered if and only if the hub comes back over an unattended queue, or a sender leaves after putting its envelope back or after something was accepted behind its empty check |
| `RelayProtocol.GapExit` | internal/server/relay.go:99-168 | such a gap ends if and only if the hub is recorded as down, the post-reconnect drain runs, or `Outbound` is called on that very channel |
| `RelayProtocol.DrainClosesGaps` | internal/server/relay.go:150-168 | right after a drain no channel is in a gap |
| `RelayOrder.OrderKeptIff` | internal/server/relay.go:96-114 | the order promise, exactly: envelopes leave in the order of acceptance if and only if `Outbound` was never called on the channel inside a gap |
| `RelayOrder.AckedInOrderIff` | internal/server/relay.go:96-98 | once nothing is held or queued: the acknowledged sequence is the accepted sequence if and only if nothing was ever sent past a waiting queue |
| `RelayOrder.HubSeesPrefix` | internal/server/relay.go:96-98 | without overtaking, with failed sends that may or may not have arrived: the hub's log, first sightings only, is a prefix of the accepted order, lacks nothing acknowledged, runs at most one ahead, and repeats of an id are adjacent |
| `RelayOrder.HubOrderIff` | internal/server/relay.go:96-98 | once nothing is held or queued, an equivalence: the hub's log, first sightings only, is the accepted order with repeats adjacent if and only if nothing was ever sent past a waiting queue |
| `RelayOrder.AckedWithinHub` | internal/server/relay.go:117-133 | in every run the hub has seen the acknowledged envelopes in the order of their acknowledgement |
| `RelayOrder.ReconnectOvertakes` | internal/server/relay.go:82-85 | the promise fails: an envelope accepted between the reconnect and its drain reaches the hub before one that has been waiting |
| `RelayOrder.LateAppendOvertaken` | internal/server/relay.go:134-145 | the promise fails without any outage: an envelope queued between the sender's empty check and its leaving is passed by a later one |
| `RelayOrder.DrainMissesFailing` | internal/server/relay.go:128-160 | a drain passes over a sender that is failing just then; afterwards both envelopes sit in a queue nobody sends although the hub is up |
| `MemoryStore.MemStore.AppendEnvelope` | internal/store/memory_data.go:12-31 | stored exactly when the id is not among the channel's seen ones; the copy is the envelope as it came but for its sequence number, and seen set, counter and list move together |
| `MemoryStore.CompactInPlace` | internal/store/memory_data.go:72-82 | the read-and-write-the-same-array loop: its front becomes exactly the envelopes at or after the cutoff, in order, and the ids reported are exactly those of the others |
| `MemoryStore.MemStore.DeleteEnvelopesBefore` | internal/store/memory_data.go:69-85 | the channel keeps the envelopes at or after the cutoff and forgets the ids of the others; the count returned is what left |
| `MemoryStore.MemStore.DeleteEnvelopes` | internal/store/memory_data.go:88-94 | list and seen ids of the channel go, counter and cursors stay |
| `MemoryStore.MemStore.DeleteChannel` | internal/store/memory_channels.go:163-170 | channel, list and seen ids go, counter and cursors stay |
| `MemoryStore.MemStore.DeleteMembersOf` | internal/store/memory.go:253-259 | deleting while iterating removes exactly the rows under the network's key prefix |
| `MemoryStore.MemStore.DeleteChannelsOf` | internal/store/memory.go:261-269 | deleting while iterating leaves exactly the channels of other networks, and removes the lists and seen ids of the rest |
| `MemoryStore.MemStore.DeleteNetworkData` | internal/store/memory.go:241-251 | the network's members and channels go, channels of other networks stay with what they hold, and so does every counter and cursor |
| `MemoryStore.MemStore.MarkRead` | internal/store/memory_inbox.go:52-67 | clamped to the counter and only forward |
| `MemoryStore.MemStore.BaselineRead` | internal/store/memory_inbox.go:72-84 | a missing cursor row is created at the counter, an existing one is untouched |
| `MemoryStore.MemStore.InboxEntries` | internal/store/memory_inbox.go:91-124 | nobody is shown a channel of a network without a membership row of theirs; the fetch baselines exactly the channels it visits, and entries agree with the state after all of it |
| `MemoryStore.VisitedAre` | internal/store/memory_inbox.go:17-33 | visited are the channels in whose network some membership row carries the user's id, each once, all of them up to 500 and otherwise 500 |
| `MemoryStore.EntryTells` | internal/store/memory_inbox.go:104-117 | an entry shows the envelope with the highest sequence number, or none for an empty channel, and counts what lies past the user's cursor |
| `MemoryStore.EntryIsExact` | internal/store/memory_inbox.go:86-124 | from a user's first fetch on, in any run without a mark of theirs, the count a later fetch shows is the number of envelopes stored since and still there |
| `MemoryStore.MemStore.EnvelopeByID` | internal/store/memory_inbox.go:127-138 | not found exactly when no envelope of that channel has the id |
| `MemoryStore.MemStore.Envelopes` | internal/store/memory_data.go:34-66 | serves the page specified in History, refused cursors included |
| `MemoryStore.MemStore.UserChannelsOf` | internal/store/memory_inbox.go:17-33 | exactly the channels of the networks in which some membership row carries the user's id |
| `Store.KeptIds` | internal/store/memory_data.go:69-85 | removing the ids of deleted envelopes one by one leaves exactly the ids of the kept ones |
| `Store.AppendIs` | internal/store/memory_data.go:20-29 | a new envelope is stored behind the others, unchanged but for the next sequence number |
| `Store.StoredWasSent` | internal/store/memory_data.go:12-31 | in every run whatever is stored was handed in by some append, the number aside |
| `Store.DropChannelIs` | internal/store/memory_channels.go:163-170 | the named channel loses row, list and ids; every other keeps its own |
| `Store.DropNetworkIs` | internal/store/memory.go:261-269 | every channel of the network loses row, list and ids; every other keeps its own; counters and cursors stay |
| `Store.DropNetworkMembers` | internal/store/memory.go:253-259 | a member's row goes if and only if it belongs to the network |
| `Unread.NumbersCount` | internal/store/memory_data.go:24-28 | a channel's copies are numbered 1, 2, 3, ... over its whole life, whatever is deleted in between, and the counter is their number |
| `Store.AlwaysChannelInv` | internal/store/memory_data.go:12-31 | in every run of all operations and for every channel: seen ids = ids in the list, ids distinct, sequence numbers strictly increasing, positive and at most the counter |
| `Store.AlwaysCursorInv` | internal/store/memory_inbox.go:52-84 | in every run no read cursor is ahead of its channel's counter |
| `Store.RunForward` | internal/store/memory_channels.go:163-170 | along every run, deletions of channels and networks included, counters never fall, cursor rows never vanish and cursors never move back |
| `Store.BornUnread` | internal/store/memory_inbox.go:49-67 | after any history, a newly stored envelope is past every user's cursor and past everything in its channel |
| `Unread.UnreadFrom` | internal/store/memory_inbox.go:113-117 | over any run whatever that leaves the user's cursor at m: the unread envelopes are, in order, those past m at the start and those stored since, as far as they survive, and the count shown is their number |
| `Unread.UnreadIsExact` | internal/store/memory_inbox.go:113-117 | from a caught-up cursor, over any run without a mark of the user's own: the unread envelopes are, in order, those stored since that still survive, and the count shown is their number |
| `Unread.UnreadSinceFirstFetch` | internal/store/memory_inbox.go:86-104 | the same from the first fetch on, after any past run |
| `Unread.UnreadSinceMarkAll` | internal/server/inbox.go:313-319 | the same from a mark-all on, with any other calls between its two store calls: what is stored after the counter was read stays unread, on a channel ever written to or already seen by the user, unless the cursor was taken further meanwhile |
| `Unread.MarkAllCatchesUpIff` | internal/server/inbox.go:313-319 | a mark at the counter value read before puts the cursor there or leaves it further on, and leaves a cursor row if and only if there was one or that value was positive |
| `Unread.MarkAllForgotten` | internal/store/memory_inbox.go:58-61 | otherwise it is forgotten: the next envelope already counts as read at the first fetch |
| `Unread.MarkByEnvelopeReads` | internal/server/inbox.go:323-329 | afterwards an envelope is read if and only if it is at or before the named one or was read before |
| `ServerOps.MarkReadToMax` | internal/server/inbox.go:313-319 | two store calls amount to one mark at the counter |
| `ServerOps.MarkReadByEnvelope` | internal/server/inbox.go:321-329 | succeeds exactly when the id is in this channel; a refusal moves nothing; success reads up to that envelope and no unread one after it |
| `ServerOps.SweepEnvelopeRetention` | internal/server/retention.go:37-60 | the loop of store calls computes the sweep of the listed channels |
| `ServerOps.SweepEffect` | internal/server/retention.go:37-60 | whatever the order, each listed channel keeps exactly its envelopes at or after its cutoff (none for 0 days), for every number of days; other channels, counters and cursors are untouched |
| `ServerOps.CutoffIs` | internal/server/retention.go:54 | where the cutoff lies for every number of days: behind by the product reduced to 64 bits, or, past half the range, ahead by what it lacks to 2^64 |
| `ServerOps.CutoffAheadIff` | internal/server/retention.go:54 | the cutoff lies in the future if and only if the product modulo 2^64 exceeds 2^63 |
| `ServerOps.SweepKeeps` | internal/server/retention.go:54-55 | what a sweep leaves for every positive number of days: nothing in that case, else the envelopes of the last (product modulo 2^64) nanoseconds stay |
| `ServerOps.CutoffExactIff` | internal/server/retention.go:54 | the 64-bit duration puts the cutoff the right number of days back if and only if there are at most 106751 of them |
| `ServerOps.CutoffWraps` | internal/server/retention.go:54 | three retentions past the limit: 106752 days put the cutoff centuries ahead, 213504 days 25 minutes back, 320000 days centuries back |
| `History.BuildChatPage` | internal/store/postgres_data.go:131-141 | the trim-and-reverse loop equals the page specified for the query result |
| `History.PagersAgree` | internal/store/postgres_data.go:86-141 | at corresponding cursors the SQL pager and the in-memory pager show the same items and hand out corresponding cursors (1-based position p, sequence number of row p) |
| `History.MemWalkIsComplete` | internal/store/memory_data.go:34-66 | reading backwards while messages arrive, with any limits: no minted cursor is refused, a finished walk, oldest page first, is exactly the channel as of the first request, and every request before that makes progress |
| `History.WalksAgree` | internal/store/postgres_data.go:62-141 | request by request, every SQL walk is matched by an in-memory walk with the same pages |
| `History.PgWalkIsComplete` | internal/store/postgres_data.go:86-141 | so a finished SQL walk is exactly the channel as of its first request |
| `History.WalkFinishes` | internal/store/postgres_data.go:86-141 | for every channel and page size both implementations have a walk that starts there and ends |
| `History.PagesAreFull` | internal/store/memory_data.go:38-56 | in both implementations a page has as many rows as asked for, 50 if none, unless it is the last |
| `History.RefusedIff` | internal/store/memory_data.go:45-51 | a cursor is refused if and only if it is no 64-bit numeral or, in memory, no position of the list |
| `History.WalkOn` | internal/store/memory_data.go:34-66 | any walk under way, in either implementation, can be continued to its end once the channel stands still |
| `HistoryDeletion.DeletionShiftsCursor` | internal/store/memory_data.go:41-51 | after any deletions and arrivals: the in-memory cursor at p is refused exactly when fewer than p rows remain, and shows the newest survivors before its position if and only if it is not refused and no row before p was deleted |
| `HistoryDeletion.PgSurvivesDeletion` | internal/store/postgres_data.go:86-101 | the SQL cursor shows them for the same lists in every case, even when its own row is gone |
| `HistoryDeletion.SweepShiftsCursor` | internal/store/memory_data.go:69-85 | both, for a sweep by creation time followed by new messages: the in-memory cursor holds if and only if no message before it had expired and at least p rows remain, the SQL cursor always |
| `HistoryDeletion.RunShiftsCursor` | internal/store/memory_data.go:34-94 | both, for any run of store operations between the two requests, from any reachable state |
| `InboxKey.PrecedesTotal` | internal/server/inbox.go:41-51 | of two different keys exactly one comes before the other |
| `InboxKey.PrecedesTrans` | internal/server/inbox.go:41-51 | and the order is transitive |
| `InboxKey.StrLessIff` | internal/server/inbox.go:47-50 | the string order: at the end of the common prefix one stops short or has the smaller character |
| `InboxKey.DecodeIff` | internal/server/inbox.go:58-72 | what decodes, exactly: a 64-bit numeral, a NUL, a network id without one, a NUL and any id |
| `InboxKey.CursorRoundTripIff` | internal/server/inbox.go:53-72 | for every 64-bit time and every id: decoding gives the encoded key back if and only if the network id has no NUL |
| `InboxKey.EncodeInjective` | internal/server/inbox.go:53-56 | hence two such keys never share a cursor |
| `Decimal.ParseItoa` | internal/server/inbox.go:67 | printing then parsing a decimal is the identity on exactly the signed 64-bit range and refused outside it |
| `Decimal.ParsedIff` | internal/server/inbox.go:67 | what parses, exactly: an optional sign and digits worth a 64-bit number |
| `Inbox.SortInboxViews` | internal/server/inbox.go:183-189 | the in-place swapping sort ends with a permutation of its input in key order, newest activity first |
| `Inbox.InOrderIff` | internal/server/inbox.go:41-51 | key order is activity descending, then network id descending, then id descending |
| `Inbox.PagesAreFull` | internal/server/inbox.go:228-234 | a page has as many rows as asked for, 50 if none and 100 at most, unless it is the last |
| `Inbox.SortedIsStrict` | internal/server/inbox.go:180-182 | with distinct (networkId, id) that order is strict, equal activities included |
| `Inbox.SliceInbox` | internal/server/inbox.go:200-224 | the scan-and-copy loops cut the page below the cursor, its last key and whether more follow |
| `Inbox.WalkUnderChange` | internal/server/inbox.go:29-30 | however rows move, appear or vanish between requests: keys come out strictly descending, and a finished walk shows every key present throughout exactly once |
| `Inbox.ClientWalkUnderChange` | internal/server/inbox.go:226-250 | the same over the cursor strings a client actually sends, with clamped limits; no request of such a walk is refused |
| `Inbox.StillWalkLength` | internal/server/inbox.go:226-250 | on n rows that stand still a finished walk shows all of them in max(1, ceil(n/limit)) pages |
| `Inbox.ClientWalkFinishes` | internal/server/inbox.go:226-250 | such walks exist and end: following cursors over n rows at rest brings all rows in order in max(1, ceil(n/clamped limit)) requests, for every requested limit |
| `SessionKeys.SanitizeKey` | internal/triggers/trigger.go:107-122 | the one-pass loop with its dash flag computes the words of the text joined by single dashes |
| `SessionKeys.FixedIffNormal` | internal/triggers/trigger.go:105-122 | sanitising yields normal form (its alphabet, no leading, trailing or doubled dash) and leaves a key alone if and only if it is in normal form |
| `SessionKeys.SanitizeIdempotent` | internal/triggers/trigger.go:107-122 | sanitising twice is sanitising once |
| `SessionKeys.SanitizeJoins` | internal/triggers/trigger.go:107-122 | a + "-" + b sanitises to the joined sanitised parts, empty parts dropped |
| `SessionKeys.SanitizeSplits` | internal/triggers/trigger.go:110-120 | the same for any separator that is neither letter nor digit |
| `SessionKeys.LettersStay` | internal/triggers/trigger.go:110-114 | letters and digits all stay, in order and in lower case |
| `SessionKeys.TruncateKeepsNormal` | internal/triggers/trigger.go:125-130 | truncation keeps normal form, is a prefix, and gives up at most one character more than the bound forces |
| `SessionKeys.NormalizedShape` | internal/triggers/trigger.go:139-145 | every custom key lands in normal form and in 3 to 63 characters, for any hash |
| `SessionKeys.NormalizedKeeps` | internal/triggers/trigger.go:139-145 | the sanitised form is kept whole, cut only above 63 characters, and put before the hash only below 3 |
| `SessionKeys.NormalizeIdempotent` | internal/triggers/trigger.go:139-145 | normalising a normalised key changes nothing |
| `SessionKeys.SessionKeyShape` | internal/triggers/trigger.go:150-181 | for every provider, repository and number: alphabet [a-z0-9-], at most 63 characters, behind the provider's prefix |
| `SessionKeys.FittingKey` | internal/triggers/trigger.go:147-154 | a key that fits is its sanitised parts, joined |
| `SessionKeys.HashSurvives` | internal/triggers/trigger.go:147-149 | a key that does not fit keeps the whole hash behind its prefix, whatever is cut |
| `SessionKeys.ProvidersApart` | internal/triggers/trigger.go:171-181 | known providers never share a key with each other or with the rest |
| `SessionKeys.RepoNameIs` | internal/triggers/trigger.go:155-158 | the name kept ends the path, has no slash, and follows one if anything precedes it |
| `SessionKeys.FittedKeeps` | internal/triggers/trigger.go:164-166 | the name is cut only if it does not fit, and by at most one character more than it must |
| `SessionKeys.NumberKeptIff` | internal/triggers/trigger.go:147-168 | over both paths: the key is a prefix of stem, dash and number, all of it if and only if the number has room (not empty, and short key or below 52 characters less the prefix or exactly that with no repository name), else it stops before the number's last character |
| `SessionKeys.NumberSurvives` | internal/triggers/trigger.go:147-168 | with that room the number ends the key behind a dash, on both paths |
| `SessionKeys.UsableNumberFits` | internal/triggers/trigger.go:147-168 | 1 to 48 characters always have room |
| `SessionKeys.NumberEchoed` | internal/triggers/trigger.go:159-167 | without room a key can end in the same characters all the same, when they are the repository's |
| `SessionKeys.HashedKeyIntactIff` | internal/triggers/trigger.go:159-167 | the hashed form keeps its four parts whole if and only if the number is not empty and fits (below 52 characters less the prefix, or exactly that with no repository name) |
| `SessionKeys.NumberLost` | internal/triggers/trigger.go:147-149 | the comment's "always" is too strong: a number that sanitises to nothing or to 63 characters or more never ends the key |
| `SessionKeys.HashedKeyNormalIff` | internal/triggers/trigger.go:159-167 | every hashed key is in normal form if and only if the number sanitises to nothing or the repository's last path part to something; otherwise two dashes meet |
| `RateLimit.RateLimiter.Allow` | internal/server/ratelimit.go:29-43 | answer and new windows are the specified ones, other keys' windows unchanged, and a refused hit changes nothing |
| `RateLimit.RefusedMeansFull` | internal/server/ratelimit.go:27-43 | in every run a hit is refused only if the limit's worth of hits on its key was let through within the last window's length |
| `RateLimit.RateBound` | internal/server/ratelimit.go:27-43 | in every run with a non-decreasing clock, no half-open interval of one window's length lets through more than 2*max-1 hits on a key |
| `RateLimit.RateBoundTight` | internal/server/ratelimit.go:27-43 | for every limit some run meets that bound |
| `RateLimit.KeysAreIndependent` | internal/server/ratelimit.go:29-43 | deleting all hits on other keys from a run changes no verdict on this one |
| `RateLimit.FailureTracker.Blocked` | internal/server/ratelimit.go:68-80 | answer, retry seconds and the count dropped when the window is over |
| `RateLimit.Join` | internal/server/networks.go:135-154 | the order of checks in a join: failure throttle, password, failure record, rate limiter, reset |
| `RateLimit.FailureBound` | internal/server/networks.go:135-154 | while nobody joins, no half-open ten-minute interval records more than five failures for a key, in any run of sequential attempts |
| `RateLimit.RefusedForFailures` | internal/server/ratelimit.go:45-47 | an attempt is refused for failures only if five were recorded on its key since the last join, the last under ten minutes ago |
| `RateLimit.JoinRate` | internal/server/networks.go:150-153 | no minute sees more than 59 joins on a key, and the right password is throttled only if 30 joined within the last minute |
| `RateLimit.AnswerTells` | internal/server/networks.go:136-154 | a password is demanded only where missing, rejected only where wrong, and nobody gets in or is rate-limited without the right one |
| `RateLimit.RetryIsHonest` | internal/server/ratelimit.go:66-80 | the retry value is in 1..601; waiting that long without a new failure unblocks, and waiting a second less than it promises does not unblock early |
| `WebhookDedupe.DeliveryCache.Seen` | internal/server/webhook_dedupe.go:27-46 | answer and new cache, with the delete-while-iterating purge above 4096 entries |
| `WebhookDedupe.RefusedIff` | internal/server/webhook_dedupe.go:24-46 | in every run a delivery is refused if and only if one with its key was processed within the last 24 hours, purge or no purge |
| `WebhookDedupe.NoIdNoRefusal` | internal/server/webhook_dedupe.go:24-30 | a delivery without an id is never refused |
| `WebhookDedupe.PurgeIsInvisible` | internal/server/webhook_dedupe.go:34-40 | every delivery of every run gets the answer of a cache that never purges |
| `WebhookDedupe.ProcessedApart` | internal/server/webhook_dedupe.go:22-46 | two deliveries processed under one id are more than 24 hours apart |
| `WebhookDedupe.KeyInjective` | internal/server/webhook_dedupe.go:31 | cache keys, provider and id joined by a bar, collide only for equal provider and id, when provider names have no bar |
| `WsTicket.TicketStore.Issue` | internal/server/wsticket.go:53-64 | the delete-while-iterating sweep and the insertion |
| `WsTicket.TicketStore.Consume` | internal/server/wsticket.go:68-79 | the ticket is gone whatever the answer; a token only in time |
| `WsTicket.RedeemsIff` | internal/server/wsticket.go:51-79 | in every run a redemption yields a token if and only if that token's ticket was issued at most a minute ago and never presented since |
| `WsTicket.SweepIsInvisible` | internal/server/wsticket.go:57-61 | every redemption gets the answer of a store that never sweeps |
| `WsTicket.RedeemsOnce` | internal/server/wsticket.go:66-79 | after one success every later redemption of the ticket fails |
| `Fanout.SendMessage` | internal/server/messages.go:119-135 | relays and fans out exactly when the append stored something |
| `Fanout.Inbound` | internal/server/relay.go:172-204 | an unknown channel is dropped, a known and new envelope is fanned out, nothing from the hub goes back to it |
| `Fanout.FanoutBound` | internal/server/messages.go:119-135 | over every interleaving of handlers, retries, echoes, redeliveries and deletions: a (channel, id) is fanned out at most once per stored copy, stored at most once more than it was removed, and relayed at most once per local store |
| `Fanout.FanoutComplete` | internal/server/relay.go:172-204 | when all handlers have finished: fanned out exactly once per stored copy, relayed exactly once per local one |
| `Fanout.StoresAreSeparated` | internal/store/memory_data.go:12-31 | between two stores of one pair its id was removed |
| `Fanout.FanoutsCanBunch` | internal/server/messages.go:119-130 | but not so between two fan-outs: overlapping handlers can fan both copies out after the removal, back to back |
| `Fanout.FanoutsSeparatedIff` | internal/server/messages.go:119-130 | between two successive fan-outs of a pair its id was removed if and only if the handlers under way, less the stored copy, are at least as many at the second as at the first |
| `Fanout.SeparatedIffLone` | internal/server/messages.go:119-130 | decidable at the first fan-out: every continuation removes the id before the next fan-out if and only if its handler is the pair's only one under way and its copy is still stored |
| `Fanout.LoneIsSeparated` | internal/server/messages.go:119-130 | then any later fan-out, successive or not, comes after a removal |
| `Store.PrefixIffSameNetwork` | internal/store/memory.go:315-317 | the NUL-terminated prefix test picks out exactly the rows of one network |
| `GuestNames.CandidatesDistinct` | internal/server/networks.go:220-222 | the names probed are pairwise distinct, since decimal printing is injective |
| `GuestNames.ChooseGuestName` | internal/server/networks.go:198-204 | the unbounded loop ends after at most members + 1 probes, on the first candidate no member of the network has: the name itself if free, else the name with (2) if that is free, and so on |

## Left out

- HTTP routing, JSON, status codes, WebSocket pumps, CORS, the static site, configuration and command-line parsing: plumbing around what is modelled.
- Authentication, password hashing, signatures, base64url (section 5 of RFC 4648): library or foreign code; the cursor round trip is stated on the raw string beneath the encoding.
- The hub client and its socket: only the outcome of a send remains.
- Presence, roster, wake-ups, dispatch log, session registry, mention and bot filters: nothing in them that the modelled parts depend on.
- SQL other than the meaning of the history query (filter, sort, take). The PostgreSQL read cursors take their maximum over surviving rows, so the counter and cursor results are for the in-memory store.
- PostgreSQL `Dispatches`: its cursor is the look-ahead row's own number (`internal/store/postgres_data.go:356-359`) while the next page asks for greater ones (28), so no gap-free walk is claimed.
- Slice aliasing: envelopes are values, so the defensive copies in `internal/store/memory_data.go:26-27` and `internal/server/relay.go:369` do nothing here.
- Creating and editing channels and members: one arbitrary edit of both tables in the store's runs.
- Fairness: a gap is shown to last until one of three kinds of step; that one of them ever comes is not claimed.
- MemoryStore.MemStore.DeleteEnvelopesBefore: the list is copied into an array before `CompactInPlace` runs on it; that older slices of the same backing array see the overwriting is not modelled.
- MemoryStore.MemStore.InboxEntries: the store's lock is held throughout, so the fetch is one operation; its loop is VisitChannels.
- Fanout.Inbound: filling in a missing sender and the sender's name (`internal/server/relay.go:183-194`) happens before the method's envelope is handed to it.
- MemoryStore.MemStore.DeleteNetworkData: sessions, wake-ups, dispatches and activity of the network are not modelled.
- Relay.Relayer.Outbound: the sequential method; what interleaves with it is in RelayProtocol.
- Relay.Relayer.DrainAll: starting the goroutines is the returned list of envelopes; their running is in RelayProtocol.
- Fanout.SendMessage: the checks before the append and the mentions after it are not modelled; nor is an append that fails with an error, which the in-memory store never does.
- WsTicket.TicketStore.Issue: the sweep and the expiry use one clock reading; the source takes one per entry under the same lock.
- RateLimit.Join: concurrent joins, in which several failures may pass the check before any is recorded, are not modelled; the bound is for requests handled one at a time.
- GuestNames.ChooseGuestName: the member table does not change during the loop, and a lookup fails only by not finding; on any other store error the source goes on probing.
- History.MemWalkIsComplete: for channels that only grow during the walk; what deletions do is in HistoryDeletion.
- ServerOps.MarkReadToMax: the method run alone; other calls between its two are in Unread.UnreadSinceMarkAll.
- ServerOps.SweepEnvelopeRetention: a store error that would end the sweep early; the in-memory store reports none.
