# sidero-proxy in Dafny

A model of the parts of sidero-proxy that give every player a stable, unique internal address and make every live connection use it, with
proofs of what those parts keep. One module per component:

| file | component | form |
|---|---|---|
| `Text.dfy` | addresses and subnets as text | functions |
| `Redis.dfy` | the identity keys of the shared database and the commands used on them | a `Server` class and the functions it is proved against |
| `Assignment.dfy`, `Identity.dfy`, `Leases.dfy`, `UniformTtl.dfy`, `Wraparound.dfy` | the assignment script, runs of it by any number of proxies and watchers mixed with time, how long mappings live, and counters past 65536 | methods proved against functions; an event system |
| `Promotion.dfy`, `Watcher.dfy` | ban promotion, the watcher's file snapshots, the assignment service | functions with interference; classes |
| `Registration.dfy` | interleaved proxy registration | a step system and a class |
| `Nat.dfy`, `Connections.dfy`, `LiveSharing.dfy` | the refcounted NAT table and all handlers of a proxy at once | a class; a step system composed with `Identity` |
| `NodeDnat.dfy` | the destination chain of a backend node | a class |
| `RegionHealth.dfy`, `Dns.dfy`, `Failover.dfy` | the DNS failover controller | functions; classes with loops |
| `VarInt.dfy`, `Hostnames.dfy`, `Handshake.dfy` | handshake decoding on a byte stream | methods with loops over a `Stream` class |
| `Routing.dfy`, `Router.dfy` | the two routing indexes and one connection from accept to release | classes |
| `Prelude.dfy` | Option, Result, sorting | functions |

Code that updates state in place is a class whose methods are proved equal to a function of the old state (`RunScript` = `AssignScript`,
`AddMapping` = `Add`, `EnsureHostname` = `Align`, and so on); the properties are then proved about those functions over every run.
`dafny verify dfyconfig.toml` checks everything.

How the surroundings are modelled:

- Time is the field `now` of the database, in milliseconds; an `Elapse` event moves it and removes expired keys. The failover clock is an
  input of every evaluation, in nanoseconds.
- Kernel, DNS and Redis failures are inputs (`fault`, `faulty`, `fails`, `replyLost`); a failed kernel or DNS operation changes nothing.
- `Reachable` and `Reaches` mean: reached from an empty database, and for connections any kernel map, by some allowed sequence of steps. A
  sequence is allowed when every call uses a number of its proxy id; TTLs are each call's own. Each number belongs to one id, but an id
  may be in use under several numbers, and the registry may name another one than its process runs with; that registration
  guarantees just this is `Registration.NumbersInUseBelongToOneId`. `WithinRange` means that no proxy has handed out more than
  65536 addresses. Beyond that the texts repeat, and `Wraparound` and `LiveSharing` say without any bound when identities and
  connections share one.
- `net.ParseIP` followed by `String` is the parameter `canonical`.

Results that are not what one might expect:

- A live forward mapping may have no reverse mapping: exactly when calls on the proxies together kept the player up but those on this one alone
  did not (`Leases.ForwardWithoutReverseIff`; `Leases.ForwardWithoutReverse` is such a run). The loss is final: no later call
  restores the mapping, and a reservation then makes an address permanent that no ban can ever resolve
  (`Leases.PermanentButUnresolvable`). An ordinary call for a reserved player leaves the deadline of a reverse mapping as it is.
- A live reverse mapping may have no forward mapping, as soon as two proxies are configured with different TTLs
  (`Leases.ReverseWithoutForwardIff`, `Leases.ReverseWithoutForward`); under one TTL it always has one.
- A ban is frozen under another address when the player's hash expires between the reverse lookup and the first reserve call
  (`Promotion.BannedAddressIsFrozenIff`, `Promotion.BannedAddressIsFrozenIffKeptUp`; `Promotion.FrozenUnderAnotherAddress` is such a
  case), and a promotion that fails is not tried again while the address stays listed (`Watcher.StillListedIsNotRetried`).
- Two registrations racing for one id may return two numbers, one of which the registry does not hold (`Registration.RaceForOneId`;
  `Registration.SlotIsStableIff` has the exact condition).
- A NAT entry whose final kernel delete fails stays for good and refuses the player once his identity has changed
  (`Connections.LeakIsPermanent`, `Connections.AddSucceedsIff`; `Connections.RefusedAfterLeak` is such a run). The refusal needs no
  failure: a connection that outlives the lease has the same effect on the next one (`Connections.RefusedWhileConnected`).
- A kernel entry left by an earlier process refuses its player until he is given the very address of that entry, for ever if his identity
  was assigned anew (`Connections.RefusedByLeftoverIff`; `Connections.RefusedByLeftover` is such a run).
- The two ignore functions look for the error texts of the nft program ("File exists", "No such file"). The native runner returns the
  system's own texts, which are lower case and never match: it fails where the nft program's reply would be ignored.
- A promotion that fails half way is not undone (`Promotion.FailedPromotionKeepsItsPart`).
- After a handshake error the bytes already read are lost, yet the connection may be routed by address
  (`Router.DeliveredIsStreamIff` has the exact condition, `Router.EmptyPacketIsLost` a case).
- The hysteresis is in `OnFallback` only: while a region is down its DNS target follows the fallback's health at any spacing
  (`RegionHealth.TargetFollowsFallbackHealth`).
- A hostname whose contents are in line keeps its records, so a changed TTL reaches DNS only with the next change of contents
  (`Dns.AlignWritesIff`, `Dns.AlignedRecords`).
- `NormalizeHostname` is not idempotent (`Hostnames.IdempotentIff` has the exact condition, `Hostnames.TwoDots` a case), so routing is stated over hostnames that were
  normalised once on each side.
- A subnet's mask length may carry leading zeros, as in `10.1.0.0/016` (`Text.AcceptedSubnetIff`).

Where the code and its documentation differ, the model follows the code: the script in `CONTEXT.md` refreshes only the forward hash and
answers `BANNED` for banned players, while `assign.lua` refreshes both keys, knows no bans and can reserve; and routing falls back to
the address connected to not only for a matching literal but also for an empty hostname and after a handshake error.

## Model

| member | source | states |
|---|---|---|
| Text.AddressTextEqualIff | internal/assignment/assign.lua:32-35 | two printed addresses are equal exactly when the proxy numbers are equal and the counters are equal modulo 65536 |
| Text.AddressDenotesCounter | internal/assignment/assign.lua:33-35 | read back as four octets, an address lies in its proxy's 10.p.0.0/16 and its low half is the counter modulo 65536 |
| Text.GoFormulaAgreesWithScript | internal/assignment/assignment.go:103-113 | the Go helper succeeds exactly for numbers 1..254 and positive counters, and then prints what the script prints |
| Text.SubnetRoundTrip | internal/registration/registration.go:89-109 | parsing a printed subnet gives the slot back for 1..254 and fails for every other slot |
| Text.AcceptedSubnetIff | internal/registration/registration.go:89-109 | a subnet text is accepted with number p exactly when p is in 1..254 and the text is the printed 10.p.0.0, a slash, any number of zeros, and 16 |
| Text.DecimalRoundTrip | internal/registration/registration.go:51 | a printed number reads back as itself, in digits only and without padding zeros |
| Text.DecimalDigits | internal/assignment/assign.lua:35 | a number is printed as its decimal digits, most significant first |
| Text.PrintedForms | internal/registration/registration.go:51 | two addresses and a subnet letter by letter, as `10.1.1.2`, `10.254.255.255` and `10.7.0.0/16` |
| Redis.Server.HashSet | internal/assignment/assign.lua:37 | HSET stores one field, keeps the key's expiry and touches nothing else |
| Redis.Server.StringSet | internal/assignment/assign.lua:38-39 | SET replaces the value, clears the expiry and touches nothing else |
| Redis.Server.ExpireKey | internal/assignment/assign.lua:25-26 | EXPIRE moves the deadline of an existing key, does nothing on a missing one and deletes when the time is not positive |
| Redis.Server.PersistKey | internal/assignment/assign.lua:20-21 | PERSIST removes the deadline of an existing key and does nothing on a missing one |
| Redis.HSetStoresOneField | internal/assignment/assign.lua:37 | of the command itself: one field of one hash is stored, the expiry is kept, a new hash has none, and nothing else changes |
| Redis.SetReplacesOneKey | internal/assignment/assign.lua:38-39 | one key gets the value and no expiry, and nothing else changes |
| Redis.IncrCountsOne | internal/assignment/assign.lua:32 | one counter goes up by one, a missing one counting as zero |
| Redis.ExpireAndPersist | internal/assignment/assign.lua:20-26 | both do nothing on a missing key; on a live one they set the deadline that many seconds ahead or take it away; a time that is not positive deletes |
| Redis.AdvanceRemovesThePassed | internal/assignment/assign.lua:25-26 | as time passes a key goes exactly when its deadline lies strictly before the new time |
| Redis.SecondsAreMilliseconds | internal/assignment/assign.lua:25-26 | a TTL in seconds is 1000 times as many milliseconds |
| Assignment.RunScript | internal/assignment/assign.lua:16-53 | the commands of both branches, one after the other, leave the database and return the address that the script's function says |
| Identity.ScriptTouchesTwoKeys | internal/assignment/assign.lua:16-53 | every script run changes only the caller's forward hash and the reverse key of its answer, stores the answer under the proxy, gives both keys the same new expiry, and reserves exactly on request |
| Identity.Execute | internal/assignment/assignment.go:83-101 | one event carried out on the server, script run or passing time, is one step of the event system |
| Identity.InvAfterStep | internal/assignment/assign.lua:16-53 | one step of anybody, script run or passing time, under any TTLs, keeps the invariant: every address of the history was printed for its owner's proxy, stored addresses and reverse mappings belong to the identity they were handed out to, reserved hashes never expire |
| Identity.InvAfterRun | internal/assignment/assign.lua:16-53 | the invariant holds after every run |
| Identity.LiveAddressesAreUnique | internal/assignment/assign.lua:32-39 | no two identities hold the same address at the same time |
| Identity.AddressesAreNeverReissued | internal/assignment/assign.lua:32-35 | of two allocations in a run the later never hands out the earlier's address, whatever expired in between |
| Identity.ReverseLookupNamesThePlayer | internal/assignment/assignment.go:63-73 | however much later an address is looked up, the answer is the identity it was given to or nothing |
| Identity.ReservedAfterStep | internal/assignment/assign.lua:17-30 | no step loses a reservation or changes a field of a reserved hash, and a proxy added later gets a mapping without expiry |
| Identity.ReservationIsForever | internal/assignment/assign.lua:17-51 | after a reserve step the hash never expires again and none of its addresses is ever changed or removed, under any later calls, numbers and TTLs |
| Identity.ReservedAnswerIsForever | internal/assignment/assign.lua:41-53 | every later call for a reserved identity answers the address the reserve call answered |
| Identity.LostForGood | internal/assignment/assign.lua:32-37 | an address an identity no longer holds is never given back to it |
| Identity.LookedUpAddressIsAnsweredIff | internal/assignment/assignment.go:63-73 | a later call answers the address that a reverse lookup named it by exactly when the identity held it at the lookup and the forward mapping stayed live in between |
| Leases.IdentityFollowsLease | internal/assignment/assign.lua:16-53 | how long an identity holds an address and how long the address names it follow a machine driven only by the clock and the calls for its player, each with its own TTL, whatever anybody else does |
| Leases.CallStartsLease | internal/assignment/assign.lua:17-51 | what one call starts: an ordinary one for an unreserved player gives both keys its TTL, a reserve call for ever, any other leaves them the time they have |
| Leases.ForwardLiveIff | internal/assignment/assign.lua:24-26 | from any reachable state an address is still held after a run exactly when no stretch between calls for the player, on any proxies, was longer than what the last call left |
| Leases.AddressIsAnsweredIff | internal/assignment/assign.lua:16-30 | a later call answers the address held before under exactly that condition |
| Leases.AddressIsStableForOneTtl | internal/assignment/assign.lua:16-30 | for one TTL after a call the same identity gets the same answer, unless a call with a shorter TTL came for the player meanwhile |
| Leases.ReverseLiveIff | internal/assignment/assign.lua:25-26 | without a further call on the same proxy the reverse mapping lives for exactly the call's TTL, whatever happens on other proxies |
| Leases.ReverseIsStableAfterCall | internal/assignment/assign.lua:17-27 | a call that allocates or finds its reverse mapping live keeps it for its TTL, and a reserve call for ever, unless a later call on this proxy brings a shorter TTL |
| Leases.ForwardWithoutReverseIff | internal/assignment/assign.lua:25-26 | a live forward mapping has lost its reverse mapping exactly when the player was kept up by calls on the proxies together but not by those on this one alone |
| Leases.ReverseWithoutForwardIff | internal/assignment/assign.lua:24-26 | a live reverse mapping has no forward mapping behind it exactly when the hash ran out first and the time the reverse key then had has not passed since: a condition on TTLs and call times |
| UniformTtl.LiveReverseHasForward | internal/assignment/assign.lua:25-26 | with one TTL for all proxies a live reverse mapping names an identity whose forward mapping is live, holds exactly that address and expires no earlier |
| UniformTtl.IdleIdentityExpires | internal/assignment/assign.lua:24-26 | there an unreserved player nobody asks for during more than one TTL is forgotten in both directions on every proxy |
| UniformTtl.HeldForeverWithoutTtl | internal/assignment/assign.lua:24-26 | and with a TTL that is not positive an address once held is held for ever |
| Leases.IdleIdentityExpiresIff | internal/assignment/assign.lua:24-26 | a player nobody asks for keeps each of his two mappings exactly as long as its own time lasts |
| Leases.LostReverseStaysLost | internal/assignment/assign.lua:17-30 | once the reverse mapping of an address handed out is gone, no later event of any kind brings it back |
| Leases.PermanentButUnresolvable | internal/watcher/watcher.go:270-274 | a reservation made after the loss makes the address permanent, and every later reverse lookup of it fails |
| Leases.ForwardWithoutReverse | internal/assignment/assign.lua:25-26 | a concrete run under one TTL in which a live forward mapping has no reverse mapping |
| Leases.ReverseWithoutForward | internal/assignment/assign.lua:24-26 | a concrete run under two TTLs in which a live reverse mapping has no forward mapping |
| Wraparound.ShareAddressIff | internal/assignment/assign.lua:32-35 | in runs of any length two live identities share an address exactly when it was printed for one number from counter values equal modulo 65536 |
| Wraparound.WindowKeepsAddressesUnique | internal/assignment/assign.lua:32-35 | however many addresses were handed out and expired, live identities that got theirs within the last 65536 of their proxy have different ones |
| Wraparound.AllocationCollidesIff | internal/assignment/assign.lua:32-37 | an allocation hands out the address of a live identity exactly when one of the same number was allocated a multiple of 65536 counter values ago |
| Wraparound.LateComerSharesAddress | internal/assignment/assign.lua:32-37 | a concrete run in which the 65537th player is given the address the first one still holds |
| Promotion.SortedProxyIDs | internal/registration/registration.go:80-87 | returns the one ascending list that holds every registered id once |
| Sorting.StringLeIff | internal/registration/registration.go:85 | the order is that of the first differing character, a string before its extensions |
| Promotion.ReportedIsStored | internal/assignment/assignment.go:46-61 | a promotion that succeeds reports for every proxy the address its permanent mapping holds at the end, whatever others did between the calls |
| Promotion.PromotionIsPrefix | internal/assignment/assignment.go:49-59 | a promotion fails exactly when some registry entry does not parse or some call fails, and then has done what the successful promotion of the proxies before it does |
| Promotion.FailedPromotionKeepsItsPart | internal/assignment/assignment.go:49-59 | what a promotion that fails part way leaves for ever: the proxies before the failure hold their reserved addresses, and the player is reserved |
| Promotion.PromotedIdentityIsPermanent | internal/watcher/watcher.go:270-288 | afterwards every call for that player on a covered proxy answers the reported address for ever |
| Promotion.BannedAddressIsFrozenIff | internal/watcher/watcher.go:270-288 | the address reserved for the source proxy is the banned one exactly when the player held it at the reverse lookup and his hash stayed live from then to the first reserve call |
| Promotion.BannedAddressIsFrozenIffKeptUp | internal/watcher/watcher.go:270-288 | the same as a condition on the lookup and on the times and TTLs of the calls for the player before the first reserve call |
| Promotion.BannedAddressIsFrozenInTime | internal/watcher/watcher.go:270-288 | so it is when the hash had enough time left at the lookup and no call has given it less since |
| Promotion.FrozenUnderAnotherAddress | internal/watcher/watcher.go:270-288 | a concrete promotion, one millisecond too late, that reserves another address than the banned one |
| Watcher.Service.Assign | internal/assignment/assignment.go:42-44 | one script run with the service's own id, number and TTL, not reserving |
| Watcher.Service.ReserveForAllProxies | internal/assignment/assignment.go:46-61 | the loop over sorted ids has the effect and the reply of the reserve sequence, stopping at the first id whose subnet does not parse |
| Watcher.Service.LookupReverse | internal/assignment/assignment.go:63-73 | succeeds exactly when the reverse key is live and then returns its content |
| Watcher.Watcher.RefreshSnapshots | internal/watcher/watcher.go:207-220 | a directory that comes under watch has its bans remembered and none promoted; an unreadable file changes nothing |
| Watcher.Watcher.TakeSnapshot | internal/watcher/watcher.go:247-262 | the diff remembers the whole listing and returns, in file order, what the last one did not have |
| Watcher.Watcher.HandleBannedIPs | internal/watcher/watcher.go:236-268 | the new snapshot, and the database after the promotion of the newly listed addresses, in file order; whom they promote is stated by the next rows |
| Watcher.Watcher.PromoteIdentity | internal/watcher/watcher.go:270-288 | database and reply are those of one promotion, about which the following rows are |
| Watcher.BanPromotesThePlayerItNames | internal/watcher/watcher.go:270-281 | a banned address promotes the player its reverse mapping names: he is reserved, every registered proxy holds the address reported for it, nothing stored for other players changes, and it fails exactly when a registered subnet has no number |
| Watcher.UnknownBanPromotesNobody | internal/watcher/watcher.go:271-274 | without a reverse mapping nothing happens and the promotion fails |
| Watcher.EveryNewBanIsPromoted | internal/watcher/watcher.go:264-268 | of the newly listed addresses every one that names a player at its turn leaves him reserved, with an address on every registered proxy |
| Watcher.OnlyNamedPlayersArePromoted | internal/watcher/watcher.go:264-268 | nobody becomes reserved or has anything changed but players whom a newly listed address names at its turn |
| Watcher.NewEntriesInFileOrder | internal/watcher/watcher.go:255-260 | the new entries are exactly the listed ones not known, in file order and as often as listed |
| Watcher.SnapshotIsLastListing | internal/watcher/watcher.go:236-262 | after any history of files and directories a snapshot is the last listing of its directory |
| Watcher.PromotedIffNewlyListed | internal/watcher/watcher.go:251-262 | a change promotes an address exactly when it is listed now and was not in the directory's last listing |
| Watcher.StillListedIsNotRetried | internal/watcher/watcher.go:264-268 | an address that stays listed is not promoted again, even if its promotion failed |
| Watcher.PresentBansAreOld | internal/watcher/watcher.go:207-220 | bans present when a directory comes under watch are never promoted while listed, later ones are |
| Watcher.LiftedBanIsPromotedAgain | internal/watcher/watcher.go:255-261 | a ban lifted and listed again is promoted again |
| Registration.InvAlways | internal/registration/registration.go:25-62 | every interleaving of registration commands keeps: each registered subnet and each returned number was drawn by a call for that very id |
| Registration.SlotsAreDistinct | internal/registration/registration.go:25-62 | under every interleaving registered subnets parse to slots 1..254 and different ids have different slots |
| Registration.ReturnedNumbersAreDistinct | internal/registration/registration.go:25-62 | calls for different ids never return the same number |
| Registration.NumbersInUseBelongToOneId | internal/registration/registration.go:25-62 | every number any call has returned and every number the registry names, at any moment of any interleaving, belongs to one id: together they are a numbering for the assignment script, also for ids that run under a number the registry no longer holds; address ranges of different ids are disjoint |
| Registration.SlotIsStableIff | internal/registration/registration.go:26-61 | a registered id keeps its subnet in every continuation exactly when no call for it is past its lookup and still able to write |
| Registration.RaceForOneId | internal/registration/registration.go:26-61 | a concrete race in which two calls for one id return 1 and 2 and the registry holds only 2; both numbers belong to the id |
| Registration.Store.Register | internal/registration/registration.go:25-62 | a registered id gets its subnet and number back and nothing changes; a new one gets the next number up to 254 and exactly that entry is written; then it fails; and one undisturbed call is its commands in the interleaved system |
| Registration.RegisteredNumberIsReturned | internal/registration/registration.go:26-37 | under every interleaving a call that looks up an id that is registered returns the registered number and changes nothing |
| Registration.LaterCallReturnsTheNumber | internal/registration/registration.go:26-37 | so does every later undisturbed call for it, as at every restart of a proxy |
| Registration.NewProxyGetsNextNumber | internal/registration/registration.go:42-61 | an undisturbed call for a new id is given the next number, up to 254, and fails from there on |
| Nat.NATManager.AddElement | internal/nat/nat.go:54-108 | both runners: a new key is added, a fault changes nothing, and an existing key is an error unless its value is the same |
| Nat.NATManager.DeleteElement | internal/nat/nat.go:59-134 | a fault changes nothing; a missing key is ignored after the nft program and an error after the native runner |
| Nat.NATManager.AddMapping | internal/nat/nat.go:183-205 | the new table and kernel map, and success, are those of the function Add |
| Nat.NATManager.DeleteMapping | internal/nat/nat.go:207-226 | the new table and kernel map, and success, are those of the function Delete |
| Nat.AddKeepsInstalled | internal/nat/nat.go:183-205 | from any kernel map: an Add succeeds exactly when the table entry agrees, or there is none, no fault, and any leftover has the same address; then the given address is installed, one reference counted and a leftover taken over, otherwise nothing changes |
| Nat.DeleteKeepsInstalled | internal/nat/nat.go:207-226 | a Delete fails exactly on a kernel fault at the last reference and then changes nothing; the kernel entry goes exactly with the last reference, and leftovers stay |
| Nat.DeleteUndoesAdd | internal/nat/nat.go:183-226 | a successful delete after a successful add restores table and kernel map, except that a leftover the add took over is gone |
| Nat.InstalledIsProjection | internal/nat/nat.go:183-226 | the kernel map is the projection of the table and the leftovers of an earlier process |
| Nat.DeleteOfMissing | internal/nat/nat.go:221-224 | when the kernel entry of a last reference is missing, the reference goes after the nft program and stays after the native runner |
| Connections.SysInvAfterAction | internal/router/router.go:129-188 | every step of any handler, other proxy, watcher or clock keeps the joint invariant of database, allocation history, NAT table, kernel map and handlers |
| Connections.SysInvAfterRun | internal/router/router.go:129-188 | the joint invariant holds in every interleaving |
| Connections.InstalledAddress | internal/router/router.go:144-172 | from NAT add to NAT delete, in particular while a backend is open, the kernel maps the player to exactly the address the handler was given and dials from, whatever the kernel map held at the start |
| Connections.SharedAddressIffSamePlayer | internal/router/router.go:138-152 | live connections share an internal address exactly when they come from the same real address, even if identities expired meanwhile |
| Connections.KernelIsInjectiveProjection | internal/nat/nat.go:183-226 | in every interleaving from any kernel map it is the projection of the table, injective on the players in it, and otherwise holds only leftovers as they were found |
| Connections.AddressNeverChangesHands | internal/router/router.go:138-172 | over a whole run one internal address is only ever given to connections of one real address |
| Connections.ReferencesCountLiveConnections | internal/nat/nat.go:192-219 | references exceed live connections by 0 or 1, and by 1 exactly for the addresses counted as leaked |
| Connections.LeakedByFailedFinalDelete | internal/nat/nat.go:215-223 | an address becomes leaked exactly when the kernel delete of its last reference fails |
| Connections.OnlyLeaksRemain | internal/router/router.go:148-152 | when all connections are closed exactly the leaked entries and untouched leftovers remain; with neither both maps are empty |
| Connections.OthersDoNotDisturb | internal/nat/nat.go:183-226 | no step of anyone else removes or changes the kernel entry of a connection that is live before and after |
| Connections.LeakIsPermanent | internal/nat/nat.go:207-226 | a leaked entry is never removed and never changes in any later run |
| Connections.AddSucceedsIff | internal/nat/nat.go:187-199 | a handler's add succeeds exactly when its address agrees with any kernel entry of the player, and a kernel fault only if he has a connection or a leaked entry |
| Connections.RefusedByLeftoverIff | internal/nat/nat.go:197-199 | a player with a leftover entry is refused in a run exactly as long as no connection of his is given the very address of that entry |
| Connections.RefusedByLeftover | internal/nat/nat.go:197-199 | a concrete first connection that is refused because of a leftover |
| Connections.RefusedAfterLeak | internal/nat/nat.go:187-191 | a concrete run in which a player without any connection is refused because an entry left by a failed delete holds his former address |
| Connections.RefusedWhileConnected | internal/nat/nat.go:187-191 | a concrete run without any kernel failure in which a player whose open connection outlives his lease is refused a second one |
| LiveSharing.ShareAddressIff | internal/router/router.go:138-152 | without any bound on allocations: connections of different players have one internal address exactly when it was printed for one number from different counter values equal modulo 65536 |
| LiveSharing.WindowSeparatesConnections | internal/router/router.go:138-152 | connections of different players given addresses out of the proxy's last 65536 have different ones |
| NodeDnat.NodeDNATManager.SortedPorts | internal/nat/nat.go:328-332 | collects every port once, ascending |
| NodeDnat.NodeDNATManager.AddRules | internal/nat/nat.go:343-349 | the chain is the rule list up to the first failing command |
| NodeDnat.NodeDNATManager.EnsureDestinations | internal/nat/nat.go:324-351 | the new chain and the success of a rebuild that any command may break off |
| NodeDnat.RebuiltChainIsLookup | internal/nat/nat.go:324-351 | whatever the chain held, after success first match on interface and port is lookup in the destinations, and other interfaces match nothing |
| NodeDnat.RebuildSucceedsIff | internal/nat/nat.go:334-350 | a rebuild succeeds exactly when none of its three setup commands and one command per destination fails |
| NodeDnat.BrokenRebuildIsPartialLookup | internal/nat/nat.go:340-349 | a rebuild that breaks off among the rules leaves a chain that agrees with the destinations wherever it matches |
| RegionHealth.HealthySinceIsStreakStart | internal/failover/controller.go:97-111 | HealthySince is the time of the first healthy evaluation after the last unhealthy one, unset if there is none |
| RegionHealth.FailsBackIff | internal/failover/controller.go:97-118 | a region leaves fallback exactly at a healthy evaluation that ends a healthy streak of at least the window, or at the first healthy one if the window is not positive |
| RegionHealth.EntersFallbackIff | internal/failover/controller.go:110-115 | a region enters fallback exactly at an evaluation that finds it unhealthy and the fallback healthy |
| RegionHealth.OnFallbackIff | internal/failover/controller.go:97-118 | it is on fallback exactly when some evaluation found it unhealthy with a healthy fallback and it has not failed back since |
| RegionHealth.NeverSentAway | internal/failover/controller.go:110-116 | a region whose fallback was never healthy while it was down is never on fallback, and its target is always itself |
| RegionHealth.SecondsAreNanoseconds | internal/failover/controller.go:104 | the window in seconds is 1_000_000_000 times as many nanoseconds |
| RegionHealth.FailbacksAreSpaced | internal/failover/controller.go:97-118 | two failbacks of a region are at least the window apart |
| RegionHealth.FailbacksAreBounded | internal/failover/controller.go:97-118 | a run has at most one failback more than the number of whole windows it spans |
| RegionHealth.ServesFallbackIff | internal/failover/controller.go:101-116 | the target is the fallback exactly when the region is on fallback afterwards and one of the two regions is healthy |
| RegionHealth.TargetFollowsFallbackHealth | internal/failover/controller.go:110-116 | while a region is down the target changes with the fallback's health between any two evaluations, with OnFallback staying true |
| Dns.AlignConverges | internal/failover/controller.go:126-157 | from any zone a hostname ends up in line with the answers, other records and names are as before, and a second time changes nothing |
| Dns.AlignWritesIff | internal/failover/controller.go:141-155 | something is written exactly when the contents were not in line |
| Dns.AlignedRecords | internal/failover/controller.go:150-154 | a rewritten hostname has one new record per answer, in order, with its TTL |
| Dns.InLineIff | internal/failover/controller.go:132-143 | comparing the sorted lists decides equality as multisets |
| Dns.WithoutNamedIsOthers | internal/failover/controller.go:145-149 | deleting the listed ids leaves exactly the other records |
| Failover.DeleteListed | internal/failover/controller.go:145-149 | the loop deletes exactly the listed records, or, if a call fails, the first few of them |
| Failover.CreateAnswers | internal/failover/controller.go:150-154 | the loop appends one record per answer, or, if a call fails, for the first few answers |
| Failover.EnsureHostname | internal/failover/controller.go:126-157 | fails exactly when a DNS call fails; on success the zone is Align's; on failure old and new records of the name never stand side by side and no other record is touched |
| Failover.Probe | internal/failover/controller.go:88-96 | the verdict used is the first one of the region in this pass, and the cache holds exactly the regions met so far |
| Failover.Controller.constructor | internal/failover/controller.go:47-62 | the region index answers like a scan for the last region of that name |
| Failover.Controller.Judge | internal/failover/controller.go:97-118 | stores the state of the region's machine after one evaluation, no other region's, and picks its target |
| Failover.Controller.Reconcile | internal/failover/controller.go:84-124 | fails exactly when a DNS call fails; on success states and zone are those of the whole pass; on failure those up to the failing hostname, with foreign records untouched |
| Failover.StatesFollowEvaluations | internal/failover/controller.go:88-118 | a pass feeds each region exactly the evaluations of its own hostnames |
| Failover.EvaluationsCarryTheirClocks | internal/failover/controller.go:88-96 | in a pass a region is evaluated once per hostname, at the clock of that turn, with the probe of its first hostname and the one of the fallback |
| Failover.RegionsRunIndependently | internal/failover/controller.go:84-124 | over any passes, complete or cut short, a region's state is that of its own machine after its own evaluations |
| Failover.OneVerdictPerPass | internal/failover/controller.go:92-96 | all hostnames of a region get the same verdict within a pass |
| Failover.ChosenIsFallbackIff | internal/failover/controller.go:90-118 | a hostname gets the fallback's answers exactly when its region is on fallback after its turn and one of the two is healthy, and its own region's otherwise |
| Failover.ChosenRegionIsConfigured | internal/failover/controller.go:48-60 | with distinct region names that choice is the configured fallback or own region itself |
| Failover.RegionNamedIsLast | internal/failover/controller.go:48-51 | of several regions with one name the last counts, and a missing one has no answers |
| Failover.PassConverges | internal/failover/controller.go:88-123 | from any zone one pass brings every hostname in line, later hostnames not undoing earlier ones |
| Failover.PassIsIdempotent | internal/failover/controller.go:88-123 | repeating a pass with the same decisions writes nothing |
| Failover.PassLeavesForeign | internal/failover/controller.go:126-157 | a pass leaves every record that is not an address record of its hostnames as it was, in order |
| Failover.PassOutcome | internal/failover/controller.go:84-157 | after a pass without failures the contents of each hostname are, as a multiset, the answers of the region chosen at its turn |
| Failover.RecordsAfterPass | internal/failover/controller.go:126-157 | after a pass each hostname's records are as they were if in line, and otherwise one A record per answer, in order, with the hostname's own TTL |
| Bits.OrIsSum | internal/minecraft/handshake.go:97-98 | OR-ing in a value shifted past the bits in use is addition |
| VarInt.OrStepIsBase128 | internal/minecraft/handshake.go:97-101 | the decoders' mask, shift and OR step appends one base-128 digit, and the mask test is the continuation bit |
| VarInt.DecodedIsSmall | internal/minecraft/handshake.go:82-129 | every decoded value is below 2^35 and takes 1 to 5 bytes |
| VarInt.DecodeIff | internal/minecraft/handshake.go:82-129 | an integer is found at the front exactly when the bytes start with at most four continued bytes and a final one, and has their base-128 value |
| VarInt.RoundTrip | internal/minecraft/handshake_test.go:43-57 | an encoded value followed by anything decodes to itself below 2^35 and is refused from there on |
| VarInt.Vectors | internal/minecraft/handshake_test.go:43-57 | encodings and decodings byte for byte, among them 25565 |
| VarInt.Stream.ReadFull | internal/minecraft/handshake.go:25-27 | reads exactly the next n bytes however reads are split, or fails and consumes everything |
| VarInt.ReadVarInt | internal/minecraft/handshake.go:82-106 | the stream decoder accepts what Decode accepts, with its value and raw bytes, and consumes exactly those; its errors and what they consume |
| VarInt.ParseVarInt | internal/minecraft/handshake.go:108-129 | the cursor decoder accepts the same inputs with the same value and length; its errors, and a cursor in bounds |
| Hostnames.IdempotentIff | internal/minecraft/handshake.go:73-80 | normalising a normalised ASCII name changes nothing exactly unless what was left still ends in a dot or in space before the dot that was dropped |
| Hostnames.TwoDots | internal/minecraft/handshake.go:77-79 | "a.." becomes "a." and that becomes "a" |
| Hostnames.IgnoresDecoration | internal/minecraft/handshake.go:73-80 | for an ASCII name case, any white space around it, one trailing dot and anything from a zero byte on do not change the normalised name |
| Hostnames.NoCapitals | internal/minecraft/handshake.go:79 | a normalised name has no capital letter |
| Hostnames.PlainIsFolded | internal/minecraft/handshake.go:73-80 | a name with nothing to trim keeps its length, its capital letters become small ones and every other byte stays |
| Hostnames.PlainNamesAgreeIff | internal/minecraft/handshake.go:73-80 | two such names normalise alike exactly when they agree letter by letter up to case |
| Hostnames.SpaceAndDot | internal/minecraft/handshake.go:77-78 | the bytes taken for white space and for the dot |
| Handshake.ParseString | internal/minecraft/handshake.go:131-145 | the string at the cursor and the cursor behind it, or an error with the cursor in bounds |
| Handshake.ParseHandshake | internal/minecraft/handshake.go:38-71 | the parse of a body with every error case |
| Handshake.ParsesIffLaidOut | internal/minecraft/handshake.go:38-71 | a body yields a host and port exactly when it can be cut into id 0, version, announced size, a host of that size, two port bytes and a next state |
| Handshake.ReadHandshakePacket | internal/minecraft/handshake.go:15-36 | raw bytes, handshake or error, and the exact bytes left unread, for every stream and every way reads are split |
| Handshake.KeptPlusUnreadIsStreamIff | internal/minecraft/handshake.go:15-36 | kept bytes followed by unread bytes are the stream exactly when the handshake parses or the stream was empty |
| Handshake.LaterBytesDoNotMatter | internal/minecraft/handshake.go:15-36 | bytes that arrive later do not change a reading that succeeds |
| Handshake.ReadingInvertsEncoding | internal/minecraft/handshake_test.go:28-57 | reading an encoded handshake followed by any bytes returns that packet, its port and its normalised host and leaves exactly those bytes |
| Routing.LastWithIff | internal/router/router.go:48-58 | the scan finds a server exactly when it is the last configured one with the claim |
| Routing.OrderMattersIff | internal/router/router.go:48-58 | a name or address is answered alike for every order of the servers exactly when all servers claiming it are the same |
| Routing.RoutingIsOrderFree | internal/router/router.go:196-215 | with such names and addresses routing does not depend on the order of the configuration |
| Routing.HostnameIsRejectedIff | internal/router/router.go:196-233 | a parsed hostname is rejected exactly when nobody has it and it is neither empty nor the literal of the address connected to, or nobody is served there |
| Routing.AddressIsRejectedIff | internal/router/router.go:209-214 | after a handshake error a connection is rejected exactly when nobody is served at the address connected to |
| Routing.RoutedServerHasClaim | internal/router/router.go:196-215 | whoever is routed to has the hostname or is the server at the address connected to |
| Routing.NameComesFirst | internal/router/router.go:197-208 | a server that has the hostname wins over whoever is served at the address; a fallback goes to the last server there |
| Routing.HasHostIff | internal/router/router.go:55-57 | a server has a hostname exactly when one of its configured names normalises to it |
| Routing.TrimBracketsIs | internal/router/router.go:228 | any brackets around a text are taken off and nothing else is |
| Routing.SpellingDoesNotMatter | internal/router/router.go:55-57 | every spelling that normalises like a configured one is routed to the server that configured it |
| Routing.Index.constructor | internal/router/router.go:48-70 | looking up in either index is scanning the configuration |
| Routing.Index.ResolveServer | internal/router/router.go:196-215 | resolving through the indexes is the rule as a scan, with its key and kind |
| Router.Router.HandleConn | internal/router/router.go:129-188 | one connection: database, NAT table after the deferred delete, the backend dialled and from which address, and what is delivered, for every place where it can fail |
| Router.Router.Connect | internal/router/router.go:154-187 | between NAT add and delete: the dial the route asks for, and the kept bytes followed by everything else |
| Router.EncodedClientReachesItsServer | internal/router/router.go:129-188 | a client that sends an encoded handshake is connected, from its assigned address, to the backend of the server that has the hostname in any spelling, at the port it connected to |
| Router.EncodedClientIsRejected | internal/router/router.go:161-170 | it is connected to nobody when no server has the hostname and the fallback rule does not hold |
| Router.EncodedClientFallsBack | internal/router/router.go:201-205 | it is connected to the last server at the address when it sent that address or nothing for a name |
| Router.UnreadableClientGoesByAddress | internal/router/router.go:209-214 | a client whose handshake does not parse is connected to the last server at the address |
| Router.DialledOnlyWhenSmooth | internal/router/router.go:138-177 | whoever is dialled, assignment, NAT add, original destination and dial succeeded, the source is the assigned address, the destination a configured backend and the port the client's |
| Router.DeliveredIsStreamIff | internal/router/router.go:179-187 | the backend receives exactly what the client sent exactly when the handshake parses or nothing had arrived |
| Router.EmptyPacketIsLost | internal/minecraft/handshake.go:20-22 | a client that opens with an empty packet: the backend receives only what follows it |
| Router.EncodedClientIsDelivered | internal/forwarder/forwarder.go:9-26 | a client sending an encoded handshake and then anything is delivered in full |
| Router.ConnectionIsBalanced | internal/router/router.go:144-152 | a connection leaves table and kernel map as they were unless its own final kernel delete failed, except that a leftover of its player goes with it, and dials from the address installed at that moment |
| Router.HandlerIsARun | internal/router/router.go:129-188 | an undisturbed handler is a run of the concurrent system: it dials exactly when its phase becomes Open, from the address in that phase, and leaves the database and NAT table of those steps, also when assignment fails |

## Left out

- Splitting the client address into host and port: handlers start from the host.
- Sockets, TCP half-close, `IP_TRANSPARENT`, `SO_ORIGINAL_DST` and the `nft`, `ip` and `docker` commands: only their outcome on a map, chain or record store is modelled.
- The JSON text of reverse mappings and registry entries: they are pairs and subnet texts, so decoding errors of foreign JSON are not modelled.
- Redis connection errors: in registration and promotion they are inputs; in `Watcher.Service` and `Router` a call that fails has no effect, and one that takes effect although its reply is lost is an `Others` event of `Connections`.
- Text.AcceptedSubnetIff: IPv6 notation in a subnet is an error of the parser here; in the source it fails on the mask width instead.
- Nat.NATManager.AddElement: an address that is not IPv4 is refused by the native runner; here that is one of the faults.
- `NATManager.Ensure` sets up the table, chain and map with fixed commands and does not flush the map, so runs start from any kernel map.
- Router.Router.HandleConn: write errors towards the backend are not modelled; the handshake deadline is the boundary between what has arrived and what comes later.
- The source's map iteration order in `SortedPorts` and `SortedProxyIDs`: any order, since the result is sorted.
- Handshake.ReadHandshakePacket: the memory a long announced packet allocates is not modelled.
- Hostnames.IdempotentIff: white space and case are those of ASCII, so it and `Hostnames.IgnoresDecoration` are about ASCII names.
- Hostnames.IgnoresDecoration: the same.
- Overflow of 64-bit counters, durations and clocks; decoded integers are proved to fit.
- The handlers' goroutines and mutexes: one step of `Connections` is one call, which the mutex makes atomic.
- `Controller.Run` and its ticker, the HTTP health probe and the Cloudflare client: passes and verdicts are inputs.
- `ProxyRedirectManager`, `NoSNATManager`, `EnsureRange`, the SYN filter and `DockerResolver`: command sequences of the shape already covered by `EnsureDestinations`.
- `LookupMappings`, `SortedMappings`, `handleBannedPlayers`, configuration loading and validation: they would only add easy members.
