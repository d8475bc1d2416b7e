# xray-bridge: verified model

xray-bridge translates HTTPS/JSON requests into gRPC calls to Xray nodes. This
project models its logic in Dafny and proves what that logic promises:

- **The client cache.** All requests share one bounded cache of node clients.
  `Lru` and `LruBounds` develop its replacement policy on keys, `ClientCache`
  the cache itself request by request, `SlotList` and `NodeCache` the mutable
  objects (a key index over slots on a doubly linked list, and the cache on top
  of it), `Locking` and `LockProgress` the interleavings of concurrent callers,
  and `Headers` the headers that select a client.
- **Adding and removing users.** `Utf8`, `Wire` and `Messages` give the bytes of
  the protobuf messages (RFC 3629; the Protocol Buffers encoding with base 128
  varints, length-delimited records and proto3 defaults), `Users` builds the
  requests and reads them back the way a node does, and `Layout` and `UserBytes`
  spell messages and requests out byte by byte.
- **Stat names and the user list.** `Text`, `StatNames`, `Stats`, `UserListing`.
- **Supporting pieces.** `Base64` (RFC 4648) and `HandlerConfigs` for handler
  settings given as JSON, `Auth` for bearer tokens, `NotFoundErrors` for error
  statuses and repeated deletes.

## How to read it

A cache state is a sequence, most recently used first. Whether a client can be
built for an address is an arbitrary function `build` of domain and port; all
results hold for every such function, every capacity and every history. The
class `NodeCache.XrayClientCache` keeps a ghost history of its calls, and its
invariant says that its contents are `ClientCache.Run` of that history, so each
lemma about `Run` is about the class. `Locking` splits one request into small
steps that other threads may interleave with and shows that lock order is a
linearisation, so the same lemmas describe concurrent callers; `LockProgress`
shows that a thread that is scheduled gets its answer.

In a policy run, the competing cache starts empty, holds each requested key
after its request, and may drop keys whenever it likes. With equal capacities
the bound is the factor `k`; the lemma states it for every smaller competitor.

Case conversion of protocol, cipher and error texts (`Text.Casing`) is an arbitrary
function, since nothing depends on what it does. Header text is ASCII, so for the bearer
scheme it is ASCII lower-casing. Strings are sequences of Unicode scalar values.

Theorems about request bytes ask that the bytes fit a buffer of less than 2^63
bytes, the most that can be allocated; lengths on the wire are 64-bit numbers.

Three results record where the code does less than its description says, each
with an input and the exact condition:

- Listing users reads the second part of every name that matches the pattern. A
  user whose id contains `>>>` or ends in `>`, such as `Alice <alice@x.com>`, is
  listed under a shortened id, and a counter of an inbound tagged `vip-user` is
  listed as a user (`UserListing.MarkIsLost`, `UserListing.TagListedAsUser`). For
  a node that answers a pattern with all counters whose names contain it,
  `UserListing.ListingIsUsersIff` says exactly when the listing is the users, for
  all counters named `scope>>>id>>>traffic>>>metric` whatever the four strings
  hold; `UserListing.WellNamedIff` spells the condition out for plain names.
- The name `UNKNOWN`, which both enums give to the number 0, is not sent as such:
  the default is (`Users.SecurityKeptIff`, `Users.CipherKeptIff`,
  `Users.UnknownIsReplaced`).
- Repeating a delete gives 200 only for a node whose answer for a missing user
  counts as "not found" (`NotFoundErrors.DeleteReplay`,
  `NotFoundErrors.UnrecognisedMissing`).

`dafny verify dfyconfig.toml` checks everything.

## Model

| member | source | states |
|---|---|---|
| `Lru.RunIsRecency` | src/nodes.rs:50-55 | after any requests the resident keys, in order, are the first k distinct keys of the history read backwards |
| `Lru.ResidentIff` | src/nodes.rs:53-55 | reuse distance: a key is resident exactly when since some earlier request of it at most k distinct keys were requested |
| `LruBounds.Inclusion` | src/nodes.rs:33-39 | a larger cache holds, as a prefix in recency order, what a smaller one holds; it misses nowhere else and never creates more |
| `LruBounds.SegmentCreatesOnce` | src/nodes.rs:43-96 | while at most k distinct keys are requested, a repeated key is a hit, whatever came before |
| `LruBounds.EveryStateReachable` | src/nodes.rs:33-39 | every duplicate-free state within the capacity is reached by some history, so results about histories are about all states |
| `LruBounds.OnlyTheOldestIsEvicted` | src/nodes.rs:57-67 | a key disappears only as the least recent one of a full cache, on a miss |
| `LruBounds.LruIsAPolicy` | src/nodes.rs:57-58 | the cache is itself one of the policies it is compared with |
| `LruBounds.Competitive` | src/nodes.rs:43-96 | against any policy of capacity c <= k on any requests, (k - c + 1) times the creations is at most k times the policy's |
| `ClientCache.StepSound` | src/nodes.rs:53-95 | every request keeps size, distinct keys and genuine clients, and moves the keys as the policy says |
| `ClientCache.RunSound` | src/nodes.rs:43-96 | every reachable state is sound, and its keys are those of the policy on the buildable requests |
| `ClientCache.Transparent` | src/nodes.rs:50-55 | on hit, miss or failure the answer is a client for the address and token of the request, or the error of the step that refused the address |
| `ClientCache.ResidentKeys` | src/nodes.rs:80-95 | contents of the cache after any calls, from the calls alone |
| `ClientCache.ResidentClient` | src/nodes.rs:80-95 | each resident client was made by the last call that missed on its key: its address, its token and its name |
| `ClientCache.CreatorsClient` | src/nodes.rs:80-95 | a call that misses on a buildable address returns a client with its own address, token and name, nothing else |
| `ClientCache.HitReturnsLastCreated` | src/nodes.rs:53-55 | a hit returns a client with the address, token and name of the call that created the resident entry |
| `ClientCache.LargerIsNoWorse` | src/nodes.rs:33-39 | inclusion and fewer creations with a larger capacity, failing builds included |
| `ClientCache.CreationsAreCompetitive` | src/nodes.rs:43-96 | the competitive bound for clients actually built, failing builds included |
| `ClientCache.SegmentBuildsOnce` | src/nodes.rs:43-96 | in a stretch of calls with at most k distinct buildable keys no client is built twice |
| `ClientCache.RebuiltOnlyAfterEviction` | src/nodes.rs:53-95 | a client built again for a key was evicted in between |
| `ClientCache.NothingEvicted` | src/nodes.rs:59-78 | a hit only reorders; a failed build changes nothing although a full cache was logged; with room nothing is lost |
| `ClientCache.OldestEvicted` | src/nodes.rs:59-94 | a full cache that builds loses exactly the entry that the log line named |
| `ClientCache.EvictedIsOldest` | src/nodes.rs:57-67 | conversely, an entry vanishes in no other way |
| `SlotList.LruSlots.Get` | src/nodes.rs:53-55 | a lookup returns the entry's client and makes it the most recent; a miss changes nothing |
| `SlotList.LruSlots.PeekLru` | src/nodes.rs:60 | the least recent key, without promoting it |
| `SlotList.LruSlots.Put` | src/nodes.rs:94 | stores in front, replacing the same key or else the oldest entry of a full list |
| `NodeCache.XrayClientCache.constructor` | src/nodes.rs:33-39 | an empty cache of the given positive capacity |
| `NodeCache.SharedCache` | src/nodes.rs:111-117 | handlers share one cache, empty at first, of capacity 256 |
| `NodeCache.XrayClientCache.GetOrCreate` | src/nodes.rs:43-96 | the new contents, result and log line are those of one step of the model and the history grows by the call; the result is a client for the address and token asked for, named by this call on a miss and by the creating call on a hit, or the internal error that says why the address was refused |
| `NodeCache.XrayClientCache.FromRequestParts` | src/nodes.rs:128-167 | malformed headers never reach the cache; well-formed ones are exactly one call of it |
| `NodeCache.NodeCallIff` | src/nodes.rs:132-157 | headers select a client exactly when the bytes of both required ones are its non-empty domain and token as tabs and printable ASCII; the name is optional |
| `NodeCache.NodeCallRefused` | src/nodes.rs:132-144 | the error names the first required header that is missing, empty or not text |
| `NodeCache.PortOfIff` | src/nodes.rs:146-151 | the port is the number that the header spells, and 443 when it spells none below 65536 |
| `Headers.ParsePortIff` | src/nodes.rs:150 | a text is read as a port exactly when it is the printed form of that number after any number of zeros and at most one plus sign |
| `Locking.EveryScheduleIsSequential` | src/nodes.rs:51-95 | under every schedule, releasing the lock and returning being separate steps, at most one thread is in the section, a free lock means the cache and the creations of the sequential run in lock order, and every result is the sequential one at a point between call and return |
| `Locking.StoresAreSeparated` | src/nodes.rs:51-95 | under every schedule requests store in lock order, each at most once, and between two stores for one key its entry was evicted |
| `Locking.RealTimeOrder` | src/nodes.rs:29-51 | a call that returned before another began precedes it in lock order |
| `Locking.ReturnsAreFresh` | src/nodes.rs:42-51 | every concurrent caller gets a client for its address and token, or the error of the step that refused the address |
| `LockProgress.WaiterServed` | src/nodes.rs:51-95 | from every reachable state with the lock free, a waiting thread that takes its steps is locked and returns what the sequential cache answers next, leaves the sequential cache and the stores of that request, and frees the lock |
| `LockProgress.HolderFinishes` | src/nodes.rs:51-95 | from every reachable state the holder of the lock, wherever it is in the section, can finish: it returns the sequential answer at its lock and frees the lock |
| `LockProgress.InvokeWaits` | src/nodes.rs:43-51 | a call of an idle thread is recorded and waits for the lock |
| `LockProgress.AllCanReturn` | src/nodes.rs:51-95 | no schedule deadlocks: from every reachable state all threads can be led to the end of their calls, with the lock free and the cache that of the sequential run |
| `Utf8.RoundTrip` | src/xray/handler.rs:54 | text survives its encoding in a message |
| `Utf8.BitLayout` | src/xray/handler.rs:54 | a character has the bytes that the table in section 3 of RFC 3629 gives for its size |
| `Utf8.EncodeAppend` | src/xray/handler.rs:54 | text is encoded character by character, in order |
| `Utf8.LessIsCharOrder` | src/xray/stats.rs:206 | comparing strings by bytes, as the ordered set does, compares their characters |
| `Wire.VarintRoundTrip` | src/xray/handler.rs:61 | every 64-bit number is read back from its varint, whatever follows |
| `Wire.VarintLayout` | src/xray/handler.rs:61 | the low seven bits of the bytes spell the number, least significant first, and exactly the last byte has its high bit clear |
| `Wire.FieldsRoundTrip` | src/xray/handler.rs:61 | every list of valid records is parsed back |
| `Messages.TypedRoundTrip` | proto/common/serial/typed_message.proto:10-15 | a typed message is read back |
| `Messages.UserRoundTrip` | proto/common/protocol/user.proto:12-19 | a user is read back, default level and email omitted, account present even if empty |
| `Messages.AddRoundTrip` | proto/app/proxyman/command/command.proto:13-15 | an add operation is read back |
| `Messages.AlterRoundTrip` | proto/app/proxyman/command/command.proto:33-36 | a request is read back |
| `Messages.VlessRoundTrip` | proto/proxy/vless/account.proto:11-31 | a VLESS account is read back, the packed repeated field and the nested message included |
| `Messages.VmessRoundTrip` | proto/proxy/vmess/account.proto:11-19 | a VMess account is read back |
| `Messages.TrojanRoundTrip` | proto/proxy/trojan/config.proto:12-14 | a Trojan account is read back |
| `Messages.SsRoundTrip` | proto/proxy/shadowsocks/config.proto:13-18 | a Shadowsocks account is read back |
| `Layout.TypedIs` | proto/common/serial/typed_message.proto:10-15 | a typed message is its name under 0A and its value under 12, empty ones left out |
| `Layout.UserIs` | proto/common/protocol/user.proto:12-19 | a user is the level under 08, the email under 12 and the account under 1A |
| `Layout.AddIs` | proto/app/proxyman/command/command.proto:13-15 | an addition is its user under 0A |
| `Layout.RemoveIs` | proto/app/proxyman/command/command.proto:17-19 | a removal is its email under 0A |
| `Layout.AlterIs` | proto/app/proxyman/command/command.proto:33-36 | a request is its tag under 0A and its operation under 12 |
| `Layout.VlessIs` | proto/proxy/vless/account.proto:16-31 | the nine fields of a VLESS account under 0A, 12, 1A, 20, 28, 32, 3A, 40 and 4A, defaults left out |
| `Layout.ReverseIs` | proto/proxy/vless/account.proto:11-14 | the reverse settings are the tag under 0A and the sniffing settings under 12 |
| `Layout.VmessIs` | proto/proxy/vmess/account.proto:11-19 | a VMess account is the id under 0A, the security under 1A and the tests under 22 |
| `Layout.TrojanIs` | proto/proxy/trojan/config.proto:12-14 | a Trojan account is the password under 0A |
| `Layout.SsIs` | proto/proxy/shadowsocks/config.proto:13-18 | a Shadowsocks account is the password under 0A, the cipher under 10 and the flag under 18 |
| `Users.SecurityIff` | src/xray/account.rs:102-111 | the number sent is the one the SecurityType enum gives to the upper-cased text if that is one of its names other than UNKNOWN, and otherwise that of AUTO |
| `Users.SecurityKeptIff` | src/xray/account.rs:102-111 | the enum's own number for the text is sent if and only if the text is an enum name other than UNKNOWN |
| `Users.CipherIff` | src/xray/account.rs:115-124 | the same for CipherType, else the number of CHACHA20_POLY1305 |
| `Users.CipherKeptIff` | src/xray/account.rs:115-124 | the same if and only if for CipherType |
| `Users.UnknownIsReplaced` | src/xray/account.rs:109-122 | at the name UNKNOWN, number 0 of both enums, 2 and 7 are sent |
| `Users.AddUserRoundTrip` | src/xray/handler.rs:43-67 | a node that goes by the type names of the message definitions reads back tag, email, level and the account the body asks for, field by field |
| `Users.RemoveUserRoundTrip` | src/xray/handler.rs:79-90 | the same for removing a user |
| `Users.AcceptedIff` | src/xray/account.rs:30-98 | a body is accepted exactly when its protocol is known and brings the password it needs, and refused as unprocessable otherwise |
| `UserBytes.AccountSpelled` | src/xray/account.rs:21-98 | every accepted account travels under the name `xray.proxy.` + protocol + `.Account`, as these bytes |
| `UserBytes.AddUserSpelled` | src/xray/handler.rs:43-67 | the bytes of every accepted addition, layer in layer, with the operation and the account named in full |
| `UserBytes.RemoveUserSpelled` | src/xray/handler.rs:79-90 | the bytes of every removal |
| `Users.SameBytesIff` | src/xray/account.rs:30-98 | two accepted bodies give the same bytes exactly when they agree on tag, email, level, protocol and the fields that protocol uses |
| `Users.RemovalsAreDistinct` | src/xray/handler.rs:76-90 | removals of different users differ, and no removal equals an addition |
| `StatNames.SplitIff` | src/xray/stats.rs:31-32 | the parts of a name are the only list that joins to it with no separator inside a part and no part but the last ending in `>` |
| `StatNames.SplitJoinIff` | src/xray/stats.rs:29-32 | splitting undoes joining exactly on such lists |
| `StatNames.PatternIff` | src/xray/stats.rs:203-205 | a name contains the user pattern exactly when a part before the last ends in "user" |
| `Stats.FieldsIff` | src/xray/stats.rs:31-46 | whatever their number, the parts that fill scope, id, category, metric in turn are the only well-split list that joins to the name |
| `Stats.RecordsKeepCounters` | src/xray/stats.rs:70-80 | each record of a reply keeps its counter's name and value and has the fields of that name |
| `Stats.FourFields` | src/xray/stats.rs:31-46 | which names have which four fields, both ways |
| `Stats.ListUsers` | src/xray/stats.rs:204-213 | asks for the user pattern, passes errors on, and returns the second parts in strictly ascending order |
| `Stats.InsertAscending` | src/xray/stats.rs:206-212 | inserting keeps the order and adds just the one element |
| `Stats.UsersDependOnSet` | src/xray/stats.rs:206-212 | order and repetition of the records do not matter |
| `Stats.UsersAreSecondParts` | src/xray/stats.rs:207-211 | listed are exactly the second parts of names that have one |
| `UserListing.UserIdReadIff` | src/xray/stats.rs:31-34 | an id is read back from a user counter exactly when it contains no separator and does not end in `>` |
| `UserListing.SecondOfUserIff` | src/xray/stats.rs:31-34 | the second part of a user's counter is the user's id exactly when the id is plain, and the counter always matches the pattern |
| `UserListing.ListedExactly` | src/xray/stats.rs:204-213 | for any counters, listed are exactly the second parts of those that match, and these are plain |
| `UserListing.ListingIsUsersIff` | src/xray/stats.rs:202-213 | for any counters, the listing is exactly the users, each once and in order, if and only if no user's id contains `>>>` or ends in `>` and no counter of another scope matches the pattern with a second part that names no user |
| `UserListing.WellNamedIff` | src/xray/stats.rs:31-34 | a counter of plain strings is read as its id, and matches exactly when its scope or id ends in "user" |
| `UserListing.TagListedAsUser` | src/xray/stats.rs:202-213 | an inbound tagged "vip-user" is listed as a user |
| `UserListing.MarkIsLost` | src/xray/stats.rs:202-213 | the user "a>" is listed as "a" |
| `Base64.DecodeIff` | src/routes/handler.rs:153-155 | a string is accepted with a result exactly when it is the encoding of that result |
| `Base64.EncodeCarries` | src/routes/handler.rs:153-155 | the symbols of the RFC 4648 alphabet, read to the base 64, spell the bits of the bytes, zero bits filling up the last symbol and padding the last group |
| `HandlerConfigs.ExtractIff` | src/routes/handler.rs:138-161 | a setting is extracted exactly when the JSON has the documented shape |
| `HandlerConfigs.ExtractRefused` | src/routes/handler.rs:138-161 | the error of a refused setting names its first fault |
| `HandlerConfigs.InboundIff` | src/routes/handler.rs:101-116 | an inbound configuration is accepted, with this content, exactly when the JSON spells it |
| `HandlerConfigs.OutboundIff` | src/routes/handler.rs:118-134 | the same for outbound configurations, the other fields staying at their defaults |
| `HandlerConfigs.InboundRoundTrip` | src/routes/handler.rs:97-116 | every configuration is read back from its JSON form |
| `Auth.ConstantTimeEq` | src/auth.rs:65-74 | true exactly for equal byte strings |
| `Auth.BearerTokenIff` | src/auth.rs:34-46 | both prefix paths accept exactly the casings of the scheme and give the same token |
| `Auth.FromRequestParts` | src/auth.rs:19-60 | a request is let in exactly when the header bytes are a casing of `Bearer ` followed by the configured non-empty token, as tabs and printable ASCII |
| `NotFoundErrors.TestsAgree` | src/xray/stats.rs:96-106 | the delete handler, the counter query and the status mapping agree on what "not found" is |
| `NotFoundErrors.StatusIff` | src/error.rs:49-134 | which errors have which HTTP status, by code and by what their text mentions |
| `NotFoundErrors.GetStatIff` | src/xray/stats.rs:84-108 | a value is reported exactly for a counter that has it, and 0 also when the node has no such counter |
| `NotFoundErrors.AddReplay` | src/routes/handler.rs:167-194 | the response to every add among any adds and deletes, and the users left |
| `NotFoundErrors.DeleteReplay` | src/routes/handler.rs:204-237 | the response to every delete among any adds and deletes, and the users left |
| `NotFoundErrors.RepeatedDelete` | src/routes/handler.rs:204-237 | a delete repeated before a re-add leaves the users alone and gives 200 if and only if the node's answer counts as not found |
| `NotFoundErrors.UnrecognisedMissing` | src/routes/handler.rs:210-226 | a node that reports a missing user as an internal error makes the delete fail with 500 |

## Left out

- gRPC sends, TLS, lazy connection and address parsing: a channel is known by its address, and building it succeeds or fails as an arbitrary function of domain and port.
- The `x-api-token` request metadata: set from the client's token by a library call.
- HTTP routing, extractor machinery, JSON parsing, body defaults and response envelopes; a header with several values is known by its first.
- System statistics, per-user traffic, handler listings, routing and balancer calls, logger restart: field copies.
- Log lines other than the one about a displaced entry; `Locking` leaves out that one too.
- The text of library errors: address errors are carried as given, base64 errors are not told apart.
- Messages.VlessRoundTrip: keeps the sniffing settings inside `reverse` as the bytes of their message, because the bridge never sets them.
- Protobuf groups.
- Timing of the token comparison.
- Lock fairness: a schedule may never pick a thread; `LockProgress` concerns the threads it picks.
- The size of the index: `SlotList.LruSlots.Len` counts the slots in use.
